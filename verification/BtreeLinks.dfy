/** The structural steps as the node methods write them: new records for the nodes concerned, then a loop
    that sets the links of the children that moved. */
module BtreeLinks {
  import opened BtreeModel
  import opened BtreeShape

  type Nodes<V> = map<Id, Node<V>>

  /** `init_child` for each child of `q` from the `i`-th on. */
  ghost function Adopt<V>(nodes: Nodes<V>, q: Id, kids: seq<Id>, i: nat): Nodes<V>
    decreases |kids| - i
  {
    if i >= |kids| || kids[i] !in nodes then nodes
    else Adopt(nodes[kids[i] := nodes[kids[i]].(parent := q, position := i)], q, kids, i + 1)
  }

  ghost predicate Distinct(kids: seq<Id>) {
    forall i, j :: 0 <= i < j < |kids| ==> kids[i] != kids[j]
  }

  ghost predicate AllIn<V>(nodes: Nodes<V>, kids: seq<Id>) {
    forall i :: 0 <= i < |kids| ==> kids[i] in nodes
  }

  lemma {:induction false} AdoptKeys<V>(nodes: Nodes<V>, q: Id, kids: seq<Id>, i: nat)
    ensures Adopt(nodes, q, kids, i).Keys == nodes.Keys
    decreases |kids| - i
  {
    if i < |kids| && kids[i] in nodes {
      AdoptKeys(nodes[kids[i] := nodes[kids[i]].(parent := q, position := i)], q, kids, i + 1);
    }
  }

  lemma {:induction false} AdoptOther<V>(nodes: Nodes<V>, q: Id, kids: seq<Id>, i: nat, id: Id)
    requires id in nodes && i <= |kids| && id !in kids[i..]
    ensures id in Adopt(nodes, q, kids, i) && Adopt(nodes, q, kids, i)[id] == nodes[id]
    decreases |kids| - i
  {
    if i < |kids| && kids[i] in nodes {
      assert kids[i..] == [kids[i]] + kids[i + 1..];
      AdoptOther(nodes[kids[i] := nodes[kids[i]].(parent := q, position := i)], q, kids, i + 1, id);
    }
  }

  lemma {:induction false} AdoptKid<V>(nodes: Nodes<V>, q: Id, kids: seq<Id>, i: nat, k: nat)
    requires Distinct(kids) && AllIn(nodes, kids) && i <= k < |kids|
    ensures kids[k] in Adopt(nodes, q, kids, i)
    ensures Adopt(nodes, q, kids, i)[kids[k]] == nodes[kids[k]].(parent := q, position := k)
    decreases k - i
  {
    var next := nodes[kids[i] := nodes[kids[i]].(parent := q, position := i)];
    if i == k {
      AdoptOther(next, q, kids, i + 1, kids[k]);
    } else {
      AdoptKid(next, q, kids, i + 1, k);
    }
  }

  lemma {:induction false} KidsDistinct<V>(t: Tree<V>, q: Id)
    requires WellFormed(t) && q in t.nodes
    ensures Distinct(t.nodes[q].kids) && AllIn(t.nodes, t.nodes[q].kids)
  {
    forall i | 0 <= i < |t.nodes[q].kids|
      ensures t.nodes[q].kids[i] in t.nodes && t.nodes[t.nodes[q].kids[i]].position == i {
      assert Down(t, q, i);
    }
  }

  /** If the children of `q` carry the right links after the step, and the records before it differ only in
      the links of those children, then adopting them completes the step. */
  lemma {:induction false} AdoptCompletes<V>(nodes: Nodes<V>, t: Tree<V>, q: Id, i: nat, id: Id)
    requires WellFormed(t) && q in t.nodes && nodes.Keys == t.nodes.Keys && id in nodes && i <= |t.nodes[q].kids|
    requires id in t.nodes[q].kids[i..] ==>
      nodes[id] == t.nodes[id].(parent := nodes[id].parent, position := nodes[id].position)
    ensures id in Adopt(nodes, q, t.nodes[q].kids, i)
    ensures Adopt(nodes, q, t.nodes[q].kids, i)[id] == if id in t.nodes[q].kids[i..] then t.nodes[id] else nodes[id]
  {
    var kids := t.nodes[q].kids;
    KidsDistinct(t, q);
    if id in kids[i..] {
      var k :| 0 <= k < |kids[i..]| && kids[i..][k] == id;
      assert Down(t, q, i + k) && kids[i + k] == id;
      AdoptKid(nodes, q, kids, i, i + k);
    } else {
      AdoptOther(nodes, q, kids, i, id);
    }
  }

  /** The node is one of those whose links the step still has to set. */
  ghost predicate Due<V>(t: Tree<V>, q: Id, i: nat, id: Id) {
    id in t.nodes && id != t.root && t.nodes[id].parent == q && t.nodes[id].position >= i
  }

  /** `written` is the tree `t` but for the links of the children of `q` from `i` on and of `r` from `j` on. */
  ghost predicate Written<V>(written: Nodes<V>, t: Tree<V>, q: Id, i: nat, r: Id, j: nat) {
    && WellFormed(t) && q in t.nodes && r in t.nodes && i <= |t.nodes[q].kids| && j <= |t.nodes[r].kids|
    && written.Keys == t.nodes.Keys && forall id :: WrittenAt(written, t, q, i, r, j, id)
  }

  ghost predicate WrittenAt<V>(written: Nodes<V>, t: Tree<V>, q: Id, i: nat, r: Id, j: nat, id: Id) {
    id in t.nodes && id in written ==>
      && written[id] == t.nodes[id].(parent := written[id].parent, position := written[id].position)
      && (Due(t, q, i, id) || Due(t, r, j, id) || written[id] == t.nodes[id])
  }

  lemma {:induction false} DueIsKid<V>(t: Tree<V>, q: Id, i: nat, id: Id)
    requires WellFormed(t) && q in t.nodes && i <= |t.nodes[q].kids|
    ensures id in t.nodes[q].kids[i..] <==> Due(t, q, i, id)
  {
    var kids := t.nodes[q].kids;
    if id in kids[i..] {
      var k :| 0 <= k < |kids[i..]| && kids[i..][k] == id;
      assert Down(t, q, i + k) && kids[i + k] == id;
    }
    if Due(t, q, i, id) {
      ParentLinks(t, id);
      assert kids[i..][t.nodes[id].position - i] == id;
    }
  }

  /** Setting those links completes the step. */
  lemma {:induction false} Completed<V>(written: Nodes<V>, t: Tree<V>, q: Id, i: nat, r: Id, j: nat)
    requires Written(written, t, q, i, r, j)
    ensures Adopt(Adopt(written, q, t.nodes[q].kids, i), r, t.nodes[r].kids, j) == t.nodes
  {
    var once := Adopt(written, q, t.nodes[q].kids, i);
    AdoptKeys(written, q, t.nodes[q].kids, i);
    AdoptKeys(once, r, t.nodes[r].kids, j);
    forall id | id in t.nodes ensures Adopt(once, r, t.nodes[r].kids, j)[id] == t.nodes[id] {
      assert WrittenAt(written, t, q, i, r, j, id);
      DueIsKid(t, q, i, id);
      DueIsKid(t, r, j, id);
      AdoptCompletes(written, t, q, i, id);
      AdoptCompletes(once, t, r, j, id);
    }
  }

  // ----- the three steps -----

  lemma {:induction false} SplitWritten<V>(m: Tree<V>, x: Id, k: nat, n: Id, written: Nodes<V>)
    requires CanSplit(m, x, k, n)
    requires var t := SplitAt(m, x, k, n); var p := m.nodes[x].parent;
      p in t.nodes && written == m.nodes[x := t.nodes[x]][p := t.nodes[p]][n := t.nodes[n]]
    ensures m.nodes[x].parent in m.nodes
    ensures Written(written, SplitAt(m, x, k, n), m.nodes[x].parent, m.nodes[x].position + 1, n, 0)
  {
    SplitWellFormed(m, x, k, n);
    SplitKids(m, x, k, n);
    var t, p, from := SplitAt(m, x, k, n), m.nodes[x].parent, m.nodes[x].position + 1;
    assert written.Keys == t.nodes.Keys;
    forall id ensures WrittenAt(written, t, p, from, n, 0, id) {
      if id in m.nodes && id != x && id != p {
        assert t.nodes[id] == SplitNode(m, x, k, n, id);
      }
    }
  }

  lemma {:induction false} MergeWritten<V>(t: Tree<V>, x: Id, y: Id, written: Nodes<V>)
    requires CanMerge(t, x, y)
    requires var m := MergeAt(t, x, y); var p := t.nodes[x].parent;
      p in m.nodes && x in m.nodes && written == (t.nodes - {y})[x := m.nodes[x]][p := m.nodes[p]]
    ensures |t.nodes[x].kids| <= |MergeAt(t, x, y).nodes[x].kids|
    ensures Written(written, MergeAt(t, x, y), x, |t.nodes[x].kids|, t.nodes[x].parent, t.nodes[x].position + 1)
  {
    MergeWellFormed(t, x, y);
    MergeFacts(t, x, y);
    MergeKids(t, x, y);
    var m, p, i, j := MergeAt(t, x, y), t.nodes[x].parent, |t.nodes[x].kids|, t.nodes[x].position + 1;
    assert written.Keys == m.nodes.Keys;
    forall id ensures WrittenAt(written, m, x, i, p, j, id) {
      if id in m.nodes && id != x && id != p && id != t.root {
        MergeRecord(t, x, y, id);
        ParentLinks(t, id);
      }
    }
  }

  /** The records of the two neighbours and their parent after sharing. */
  lemma {:induction false} ShareRecords<V>(t: Tree<V>, x: Id, y: Id, k: nat)
    requires CanShare(t, x, y, k)
    ensures var X, Y, P, s := t.nodes[x], t.nodes[y], t.nodes[t.nodes[x].parent], Share(t, x, y, k);
      var p, j := X.parent, X.position;
      && X.leaf == Y.leaf && j < |P.vals| && (X.leaf ==> X.kids == [] && Y.kids == [])
      && (!X.leaf ==> |X.kids| == |X.vals| + 1 && |Y.kids| == |Y.vals| + 1) && p in s.nodes && x in s.nodes
      && y in s.nodes
      && var all := X.vals + [P.vals[j]] + Y.vals;
      && s.nodes[x] == X.(vals := all[..k], kids := Take(X.kids + Y.kids, k + 1))
      && s.nodes[y] == Y.(vals := all[k + 1..], kids := Drop(X.kids + Y.kids, k + 1))
      && s.nodes[p] == P.(vals := P.vals[j := all[k]])
  {
    MergeFacts(t, x, y);
    MergeWellFormed(t, x, y);
    var X, Y, P, m := t.nodes[x], t.nodes[y], t.nodes[t.nodes[x].parent], MergeAt(t, x, y);
    var j := X.position;
    assert m.nodes[x] == X.(vals := X.vals + [P.vals[j]] + Y.vals, kids := X.kids + Y.kids);
    assert m.nodes[X.parent] == P.(vals := Without(P.vals, j), kids := Without(P.kids, j + 1));
    WithoutReplaced(P.vals, j, m.nodes[x].vals[k]);
    WithoutInverse(P.kids, j + 1);
  }

  lemma {:induction false} WithoutReplaced<T>(s: seq<T>, i: nat, v: T)
    requires i < |s|
    ensures Take(Without(s, i), i) + [v] + Drop(Without(s, i), i) == s[i := v]
  {
  }

  /** Any other node keeps its record but for the links of the children that changed sides. */
  lemma {:induction false} ShareRecord<V>(t: Tree<V>, x: Id, y: Id, k: nat, id: Id)
    requires CanShare(t, x, y, k) && id in t.nodes && id != x && id != y && id != t.nodes[x].parent
    ensures id in Share(t, x, y, k).nodes
    ensures var r, s := t.nodes[id], Share(t, x, y, k).nodes[id];
      var c := if r.parent == x then r.position else r.position + |t.nodes[x].vals| + 1;
      s == if id == t.root || (r.parent != x && r.parent != y) then r
           else if c <= k then r.(parent := x, position := c) else r.(parent := y, position := c - (k + 1))
  {
    MergeFacts(t, x, y);
    MergeWellFormed(t, x, y);
    var m := MergeAt(t, x, y);
    if id != t.root {
      MergeRecord(t, x, y, id);
      ParentLinks(t, id);
      assert Share(t, x, y, k).nodes[id] == SplitNode(m, x, k, y, id);
      assert t.nodes[id].parent == t.nodes[x].parent ==>
          t.nodes[id].position != t.nodes[x].position && t.nodes[id].position != t.nodes[x].position + 1;
    }
  }

  lemma {:induction false} ShareWritten<V>(t: Tree<V>, x: Id, y: Id, k: nat, written: Nodes<V>, i: nat)
    requires CanShare(t, x, y, k)
    requires var s := Share(t, x, y, k); var p := t.nodes[x].parent;
      && p in s.nodes && x in s.nodes && y in s.nodes
      && written == t.nodes[x := s.nodes[x]][y := s.nodes[y]][p := s.nodes[p]]
      && i <= |s.nodes[x].kids| && i <= |t.nodes[x].kids| && (i == |s.nodes[x].kids| || i == |t.nodes[x].kids|)
    ensures Written(written, Share(t, x, y, k), x, i, y, 0)
  {
    var s := Share(t, x, y, k);
    ShareKeeps(t, x, y, k, x);
    assert written.Keys == s.nodes.Keys;
    forall id ensures WrittenAt(written, s, x, i, y, 0, id) {
      if id in t.nodes && id != x && id != y && id != t.nodes[x].parent {
        ShareMoves(t, x, y, k, i, id);
      }
    }
  }

  lemma {:induction false} ShareMoves<V>(t: Tree<V>, x: Id, y: Id, k: nat, i: nat, id: Id)
    requires CanShare(t, x, y, k) && id in t.nodes && id != x && id != y && id != t.nodes[x].parent
    requires x in Share(t, x, y, k).nodes && i <= |t.nodes[x].kids|
    requires i == |Share(t, x, y, k).nodes[x].kids| || i == |t.nodes[x].kids|
    ensures id in Share(t, x, y, k).nodes
    ensures var r, s := t.nodes[id], Share(t, x, y, k).nodes[id];
      && r == s.(parent := r.parent, position := r.position)
      && (Due(Share(t, x, y, k), x, i, id) || Due(Share(t, x, y, k), y, 0, id) || s == r)
  {
    ShareRecord(t, x, y, k, id);
    ShareRecords(t, x, y, k);
    if id != t.root {
      ParentLinks(t, id);
    }
  }

  /** While links are being set, every child named is a node. */
  lemma {:induction false} KidsWritten<V>(written: Nodes<V>, t: Tree<V>, q: Id, i: nat, r: Id, j: nat)
    requires Written(written, t, q, i, r, j)
    ensures AllIn(written, t.nodes[q].kids) && AllIn(written, t.nodes[r].kids)
    ensures written[q].kids == t.nodes[q].kids && written[r].kids == t.nodes[r].kids
    ensures var once := Adopt(written, q, t.nodes[q].kids, i);
      r in once && once[r].kids == t.nodes[r].kids && AllIn(once, t.nodes[r].kids)
  {
    KidsDistinct(t, q);
    KidsDistinct(t, r);
    assert WrittenAt(written, t, q, i, r, j, q) && WrittenAt(written, t, q, i, r, j, r);
    AdoptKeys(written, q, t.nodes[q].kids, i);
    DueIsKid(t, q, i, r);
    AdoptCompletes(written, t, q, i, r);
  }

  // ----- the records the two rebalances write -----

  lemma {:induction false} LeftRecords<V>(t: Tree<V>, x: Id, y: Id, k: nat)
    requires CanMerge(t, x, y) && t.nodes[x].maxCount == t.nodes[y].maxCount
    requires |t.nodes[x].vals| < k <= |t.nodes[x].vals| + |t.nodes[y].vals|
    ensures CanShare(t, x, y, k)
    ensures var X, Y, P, s := t.nodes[x], t.nodes[y], t.nodes[t.nodes[x].parent], Share(t, x, y, k);
      var p, j, toMove := X.parent, X.position, k - |X.vals|;
      && j < |P.vals| && p in s.nodes && x in s.nodes && y in s.nodes && (!X.leaf ==> toMove <= |Y.kids|)
      && s.nodes[x] == X.(vals := X.vals + [P.vals[j]] + Y.vals[..toMove - 1],
                            kids := if X.leaf then [] else X.kids + Y.kids[..toMove])
      && s.nodes[y] == Y.(vals := Y.vals[toMove..], kids := if X.leaf then [] else Y.kids[toMove..])
      && s.nodes[p] == P.(vals := P.vals[j := Y.vals[toMove - 1]])
  {
    MergeFacts(t, x, y);
    var X, Y, toMove := t.nodes[x], t.nodes[y], k - |t.nodes[x].vals|;
    ShareRecords(t, x, y, k);
    MovedLeft(X.vals, t.nodes[X.parent].vals[X.position], Y.vals, toMove);
    if !X.leaf {
      MovedKidsLeft(X.kids, Y.kids, toMove);
    }
  }

  lemma {:induction false} LeftCompletes<V>(t: Tree<V>, x: Id, y: Id, k: nat, written: Nodes<V>)
    requires CanMerge(t, x, y) && t.nodes[x].maxCount == t.nodes[y].maxCount
    requires |t.nodes[x].vals| < k <= |t.nodes[x].vals| + |t.nodes[y].vals|
    requires var X, Y, P := t.nodes[x], t.nodes[y], t.nodes[t.nodes[x].parent];
      var p, j, toMove := X.parent, X.position, k - |X.vals|;
      && j < |P.vals| && (!X.leaf ==> toMove <= |Y.kids|)
      && written == t.nodes[x := X.(vals := X.vals + [P.vals[j]] + Y.vals[..toMove - 1],
                                 kids := if X.leaf then [] else X.kids + Y.kids[..toMove])]
                           [y := Y.(vals := Y.vals[toMove..], kids := if X.leaf then [] else Y.kids[toMove..])]
                           [p := P.(vals := P.vals[j := Y.vals[toMove - 1]])]
    ensures var once := Adopt(written, x, written[x].kids, |t.nodes[x].kids|);
      && AllIn(written, written[x].kids) && y in once && AllIn(once, once[y].kids)
      && var done := Adopt(once, y, once[y].kids, 0);
      && IsShare(t, x, y, k, Tree(done, t.level, t.root)) && done.Keys == t.nodes.Keys
  {
    LeftRecords(t, x, y, k);
    MergeFacts(t, x, y);
    ShareLevels(t, x, y, k);
    var s, i := Share(t, x, y, k), |t.nodes[x].kids|;
    ShareWritten(t, x, y, k, written, i);
    Completed(written, s, x, i, y, 0);
    KidsWritten(written, s, x, i, y, 0);
    ShareKeys(t, x, y, k);
    OpenShare(|t.nodes| + 5, t, x, y, k, s);
  }

  lemma {:induction false} RightRecords<V>(t: Tree<V>, x: Id, y: Id, k: nat)
    requires CanMerge(t, x, y) && t.nodes[x].maxCount == t.nodes[y].maxCount && k < |t.nodes[x].vals|
    ensures CanShare(t, x, y, k)
    ensures var X, Y, P, s := t.nodes[x], t.nodes[y], t.nodes[t.nodes[x].parent], Share(t, x, y, k);
      var p, j := X.parent, X.position;
      && j < |P.vals| && p in s.nodes && x in s.nodes && y in s.nodes && (!X.leaf ==> k < |X.kids|)
      && s.nodes[x] == X.(vals := X.vals[..k], kids := if X.leaf then [] else X.kids[..k + 1])
      && s.nodes[y] == Y.(vals := X.vals[k + 1..] + [P.vals[j]] + Y.vals,
                            kids := if X.leaf then [] else X.kids[k + 1..] + Y.kids)
      && s.nodes[p] == P.(vals := P.vals[j := X.vals[k]])
  {
    MergeFacts(t, x, y);
    var X, Y := t.nodes[x], t.nodes[y];
    ShareRecords(t, x, y, k);
    MovedRight(X.vals, t.nodes[X.parent].vals[X.position], Y.vals, k);
    if !X.leaf {
      MovedKidsRight(X.kids, Y.kids, k);
    }
  }

  lemma {:induction false} RightCompletes<V>(t: Tree<V>, x: Id, y: Id, k: nat, written: Nodes<V>)
    requires CanMerge(t, x, y) && t.nodes[x].maxCount == t.nodes[y].maxCount && k < |t.nodes[x].vals|
    requires var X, Y, P := t.nodes[x], t.nodes[y], t.nodes[t.nodes[x].parent]; var p, j := X.parent, X.position;
      && j < |P.vals| && (!X.leaf ==> k < |X.kids|)
      && written == t.nodes[x := X.(vals := X.vals[..k], kids := if X.leaf then [] else X.kids[..k + 1])]
                           [y := Y.(vals := X.vals[k + 1..] + [P.vals[j]] + Y.vals,
                                    kids := if X.leaf then [] else X.kids[k + 1..] + Y.kids)]
                           [p := P.(vals := P.vals[j := X.vals[k]])]
    ensures var done := Adopt(written, y, written[y].kids, 0);
      && AllIn(written, written[y].kids) && IsShare(t, x, y, k, Tree(done, t.level, t.root))
      && done.Keys == t.nodes.Keys
  {
    RightRecords(t, x, y, k);
    MergeFacts(t, x, y);
    ShareLevels(t, x, y, k);
    var s, i := Share(t, x, y, k), |written[x].kids|;
    ShareWritten(t, x, y, k, written, i);
    Completed(written, s, x, i, y, 0);
    KidsWritten(written, s, x, i, y, 0);
    ShareKeys(t, x, y, k);
    OpenShare(|t.nodes| + 5, t, x, y, k, s);
  }

  lemma {:induction false} MovedLeft<V>(a: seq<V>, d: V, b: seq<V>, n: nat)
    requires 0 < n <= |b|
    ensures (a + [d] + b)[..|a| + n] == a + [d] + b[..n - 1] && (a + [d] + b)[|a| + n] == b[n - 1]
    ensures (a + [d] + b)[|a| + n + 1..] == b[n..]
  {
  }

  lemma {:induction false} MovedKidsLeft(a: seq<Id>, b: seq<Id>, n: nat)
    requires n <= |b|
    ensures Take(a + b, |a| + n) == a + b[..n] && Drop(a + b, |a| + n) == b[n..]
  {
  }

  lemma {:induction false} MovedRight<V>(a: seq<V>, d: V, b: seq<V>, k: nat)
    requires k < |a|
    ensures (a + [d] + b)[..k] == a[..k] && (a + [d] + b)[k] == a[k] && (a + [d] + b)[k + 1..] == a[k + 1..] + [d] + b
  {
  }

  lemma {:induction false} MovedKidsRight(a: seq<Id>, b: seq<Id>, k: nat)
    requires k < |a|
    ensures Take(a + b, k + 1) == a[..k + 1] && Drop(a + b, k + 1) == a[k + 1..] + b
  {
  }

  lemma {:induction false} ShareKeys<V>(t: Tree<V>, x: Id, y: Id, k: nat)
    requires CanShare(t, x, y, k)
    ensures Share(t, x, y, k).nodes.Keys == t.nodes.Keys
  {
  }

  lemma {:induction false} ShareLevels<V>(t: Tree<V>, x: Id, y: Id, k: nat)
    requires CanShare(t, x, y, k)
    ensures Share(t, x, y, k).level == t.level && Share(t, x, y, k).root == t.root
  {
    MergeFacts(t, x, y);
  }

  // ----- the steps as relations, sealed like `Sub`: their definitions stay out of sight until opened -----

  ghost predicate SealedSplit<V>(deep: nat, m: Tree<V>, x: Id, k: nat, n: Id, t: Tree<V>) {
    if deep > 0 then SealedSplit(deep - 1, m, x, k, n, t) else CanSplit(m, x, k, n) && t == SplitAt(m, x, k, n)
  }

  ghost predicate IsSplit<V>(m: Tree<V>, x: Id, k: nat, n: Id, t: Tree<V>) {
    SealedSplit(|m.nodes| + 5, m, x, k, n, t)
  }

  lemma {:induction false} OpenSplit<V>(deep: nat, m: Tree<V>, x: Id, k: nat, n: Id, t: Tree<V>)
    ensures SealedSplit(deep, m, x, k, n, t) <==> CanSplit(m, x, k, n) && t == SplitAt(m, x, k, n)
  {
    if deep == 0 {
    } else {
      OpenSplit(deep - 1, m, x, k, n, t);
    }
  }

  ghost predicate SealedShare<V>(deep: nat, t: Tree<V>, x: Id, y: Id, k: nat, s: Tree<V>) {
    if deep > 0 then SealedShare(deep - 1, t, x, y, k, s) else CanShare(t, x, y, k) && s == Share(t, x, y, k)
  }

  ghost predicate IsShare<V>(t: Tree<V>, x: Id, y: Id, k: nat, s: Tree<V>) {
    SealedShare(|t.nodes| + 5, t, x, y, k, s)
  }

  lemma {:induction false} OpenShare<V>(deep: nat, t: Tree<V>, x: Id, y: Id, k: nat, s: Tree<V>)
    ensures SealedShare(deep, t, x, y, k, s) <==> CanShare(t, x, y, k) && s == Share(t, x, y, k)
  {
    if deep == 0 {
    } else {
      OpenShare(deep - 1, t, x, y, k, s);
    }
  }

  ghost predicate SealedMerge<V>(deep: nat, t: Tree<V>, x: Id, y: Id, m: Tree<V>) {
    if deep > 0 then SealedMerge(deep - 1, t, x, y, m) else CanMerge(t, x, y) && m == MergeAt(t, x, y)
  }

  ghost predicate IsMerge<V>(t: Tree<V>, x: Id, y: Id, m: Tree<V>) {
    SealedMerge(|t.nodes| + 5, t, x, y, m)
  }

  lemma {:induction false} OpenMerge<V>(deep: nat, t: Tree<V>, x: Id, y: Id, m: Tree<V>)
    ensures SealedMerge(deep, t, x, y, m) <==> CanMerge(t, x, y) && m == MergeAt(t, x, y)
  {
    if deep == 0 {
    } else {
      OpenMerge(deep - 1, t, x, y, m);
    }
  }

  // ----- what the methods write, complete -----

  /** The three records a split writes first: the two halves and the parent. */
  ghost predicate SplitRecords<V>(m: Tree<V>, x: Id, k: nat, n: Id, written: Nodes<V>)
    requires CanSplit(m, x, k, n)
  {
    var X, P := m.nodes[x], m.nodes[m.nodes[x].parent];
    var p, j := X.parent, X.position;
    && j < |P.kids| && j <= |P.vals| && (!X.leaf ==> k < |X.kids|)
    && written == m.nodes[x := X.(vals := X.vals[..k], kids := if X.leaf then [] else X.kids[..k + 1])]
                         [p := P.(vals := P.vals[..j] + [X.vals[k]] + P.vals[j..],
                                  kids := P.kids[..j + 1] + [n] + P.kids[j + 1..])]
                         [n := Node(X.leaf, X.maxCount, p, j + 1, X.vals[k + 1..],
                                    if X.leaf then [] else X.kids[k + 1..])]
  }

  lemma {:induction false} RecordsWritten<V>(m: Tree<V>, x: Id, k: nat, n: Id, written: Nodes<V>)
    requires CanSplit(m, x, k, n) && SplitRecords(m, x, k, n, written)
    ensures var t := SplitAt(m, x, k, n); var p := m.nodes[x].parent;
      && p in t.nodes && x in t.nodes && n in t.nodes
      && written == m.nodes[x := t.nodes[x]][p := t.nodes[p]][n := t.nodes[n]]
  {
    SplitFacts(m, x, k, n);
  }

  /** From the records a split writes, setting the links of the children gives the split. */
  lemma {:induction false} SplitCompletes<V>(m: Tree<V>, x: Id, k: nat, n: Id, written: Nodes<V>, level: map<Id, nat>)
    requires CanSplit(m, x, k, n) && x in m.level && level == m.level[n := m.level[x]]
    requires SplitRecords(m, x, k, n, written)
    ensures var p, j := m.nodes[x].parent, m.nodes[x].position; var once := Adopt(written, p, written[p].kids, j + 1);
      && AllIn(written, written[p].kids) && n in once && AllIn(once, once[n].kids)
      && var done := Adopt(once, n, once[n].kids, 0);
      && IsSplit(m, x, k, n, Tree(done, level, m.root)) && done.Keys == m.nodes.Keys + {n}
  {
    var t, p, i := SplitAt(m, x, k, n), m.nodes[x].parent, m.nodes[x].position + 1;
    RecordsWritten(m, x, k, n, written);
    SplitWritten(m, x, k, n, written);
    Completed(written, t, p, i, n, 0);
    KidsWritten(written, t, p, i, n, 0);
    assert t.level == level;
    OpenSplit(|m.nodes| + 5, m, x, k, n, t);
  }

  lemma {:induction false} MergeCompletes<V>(t: Tree<V>, x: Id, y: Id, written: Nodes<V>)
    requires CanMerge(t, x, y)
    requires var X, Y, P := t.nodes[x], t.nodes[y], t.nodes[t.nodes[x].parent]; var p, j := X.parent, X.position;
      && j < |P.vals| && j + 1 < |P.kids|
      && written == (t.nodes - {y})[x := X.(vals := X.vals + [P.vals[j]] + Y.vals, kids := X.kids + Y.kids)]
                                   [p := P.(vals := P.vals[..j] + P.vals[j + 1..],
                                            kids := P.kids[..j + 1] + P.kids[j + 2..])]
    ensures var p, j := t.nodes[x].parent, t.nodes[x].position;
      var once := Adopt(written, x, written[x].kids, |t.nodes[x].kids|);
      && AllIn(written, written[x].kids) && p in once && AllIn(once, once[p].kids)
      && var done := Adopt(once, p, once[p].kids, j + 1);
      && IsMerge(t, x, y, Tree(done, t.level - {y}, t.root)) && done.Keys == t.nodes.Keys - {y}
  {
    MergeFacts(t, x, y);
    var m, p, i, j := MergeAt(t, x, y), t.nodes[x].parent, |t.nodes[x].kids|, t.nodes[x].position + 1;
    MergeWritten(t, x, y, written);
    Completed(written, m, x, i, p, j);
    KidsWritten(written, m, x, i, p, j);
    OpenMerge(|t.nodes| + 5, t, x, y, m);
  }
}
