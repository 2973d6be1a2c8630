/** The B-tree: search, iteration, insertion and erasure over nodes linked in both directions. */
module Btree {
  import opened BtreeModel
  import opened BtreeShape
  import opened BtreeChange
  import opened BtreePlace
  import opened BtreeLinks
  import opened BtreeSearch
  import opened BtreeSteps
  import BtreeSlots

  /** The static node that is the root of every empty tree. */
  function EmptyNode<V>(): Node<V> {
    Node(true, 1, EMPTY, 0, [], [])
  }

  class BTree<V(!new)> {
    const cap: nat                   // kNodeValues
    const linear: bool               // use_linear_search
    const less: (V, V) -> bool
    var nodes: map<Id, Node<V>>
    var root: Id
    var rightmost: Id
    var size: nat
    var nextId: Id                   // the next node to be allocated
    ghost var level: map<Id, nat>

    ghost function T(): Tree<V>
      reads this
    {
      Tree(nodes, level, root)
    }

    ghost function Contents(): seq<V>
      reads this
    {
      Values(T())
    }

    /** The structure, while the nodes in `spare` may be empty. */
    ghost predicate Kept(spare: set<Id>)
      reads this
    {
      Allocated() && Sound(cap, T(), rightmost, spare)
    }

    ghost predicate Allocated()
      reads this
    {
      && 3 <= cap && 0 < nextId && (root != EMPTY ==> EMPTY !in nodes)
      && (forall id :: id in nodes ==> id < nextId)
    }

    ghost predicate Valid()
      reads this
    {
      && Kept(if root == EMPTY then {EMPTY} else {})
      && StrictOrder(less) && Sorted(less, Contents()) && size == |Contents()|
      && (root == EMPTY ==> IsEmpty())
    }

    /** The state of an empty tree. */
    ghost predicate IsEmpty()
      reads this
    {
      && root == EMPTY && rightmost == EMPTY && Allocated()
      && nodes == map[EMPTY := EmptyNode()] && level == map[EMPTY := 0]
    }

    constructor (cap: nat, linear: bool, less: (V, V) -> bool)
      requires 3 <= cap && StrictOrder(less)
      ensures Valid() && Contents() == [] && this.less == less
    {
      this.cap, this.linear, this.less := cap, linear, less;
      nodes, level := map[EMPTY := EmptyNode()], map[EMPTY := 0];
      root, rightmost, size, nextId := EMPTY, EMPTY, 0, 1;
      new;
      EmptyKept();
    }

    /** Enough to search: any node may be empty. */
    ghost predicate Linked()
      reads this
    {
      Allocated() && Sound(cap, T(), rightmost, nodes.Keys)
    }

    lemma {:induction false} ValidLinked(spare: set<Id>)
      requires Kept(spare)
      ensures Linked()
    {
      forall id ensures Filled(T(), nodes.Keys, id) {
      }
    }

    method Search(vals: seq<V>, before: V -> bool) returns (s: nat)
      requires Monotone(before, vals)
      ensures Cuts(before, vals, s)
    {
      if linear {
        s := LinearSearch(vals, before);
      } else {
        s := BinarySearch(vals, before);
      }
    }

    /** The loop of `internal_locate`, `internal_lower_bound` and `internal_upper_bound`. */
    method Descend(before: V -> bool) returns (it: Iter)
      requires Linked() && Monotone(before, Contents())
      ensures it.node in nodes && nodes[it.node].leaf && 0 <= it.position <= |nodes[it.node].vals|
      ensures Cuts(before, Contents(), Mark(T(), it))
    {
      var node := root;
      StartOfRoot(T());
      while true
        invariant node in nodes && node in level
        invariant CutsWithin(before, Contents(), StartOf(T(), node), StartOf(T(), node) + |Sub(T(), node)|)
        decreases level[node]
      {
        NodeMonotone(T(), node, before);
        var pos := Search(nodes[node].vals, before);
        if nodes[node].leaf {
          CutLands(T(), node, before, pos);
          MarkInLeaf(T(), Iter(node, pos));
          return Iter(node, pos);
        }
        CutDescends(T(), node, before, pos);
        node := nodes[node].kids[pos];
      }
    }

    /** `internal_last` */
    method InternalLast(from: Iter) returns (r: Place)
      requires Linked() && from.node in nodes && 0 <= from.position <= |nodes[from.node].vals|
      ensures if Mark(T(), from) < |Contents()| then r.At?
                    && OnValue(T(), r.iter) && Mark(T(), r.iter) == Mark(T(), from)
              else r == Nowhere
    {
      var it := from;
      InPlace(T(), from.node);
      while it.position == |nodes[it.node].vals|
        invariant it.node in nodes && 0 <= it.position <= |nodes[it.node].vals|
        invariant Mark(T(), it) == Mark(T(), from)
        decreases Depth(T(), it.node)
      {
        RootTest(cap, T(), rightmost, nodes.Keys, it.node);
        if it.node != root {
          MarkClimbs(T(), it.node);
        } else {
          StartOfRoot(T());
        }
        it := Iter(nodes[it.node].parent, nodes[it.node].position);
        if nodes[it.node].leaf {
          return Nowhere;
        }
      }
      MarkValue(T(), it);
      return At(it);
    }

    /** `internal_lower_bound`: the first value not less than the key. */
    method LowerBound(key: V) returns (r: Place)
      requires Valid()
      ensures r == Nowhere ==> forall i :: 0 <= i < |Contents()| ==> less(Contents()[i], key)
      ensures r.At? ==> OnValue(T(), r.iter) && Cuts(v => less(v, key), Contents(), Mark(T(), r.iter))
    {
      ValidLinked(if root == EMPTY then {EMPTY} else {});
      LowerMonotone(less, Contents(), key);
      var it := Descend(v => less(v, key));
      r := InternalLast(it);
    }

    /** `internal_upper_bound`: the first value greater than the key. */
    method UpperBound(key: V) returns (r: Place)
      requires Valid()
      ensures r == Nowhere ==> forall i :: 0 <= i < |Contents()| ==> !less(key, Contents()[i])
      ensures r.At? ==> OnValue(T(), r.iter) && Cuts(v => !less(key, v), Contents(), Mark(T(), r.iter))
    {
      ValidLinked(if root == EMPTY then {EMPTY} else {});
      UpperMonotone(less, Contents(), key);
      var it := Descend(v => !less(key, v));
      r := InternalLast(it);
    }

    /** `internal_find` */
    method Find(key: V) returns (r: Place)
      requires Valid()
      ensures r == Nowhere <==> forall i :: 0 <= i < |Contents()| ==> !Same(less, Contents()[i], key)
      ensures r.At? ==> OnValue(T(), r.iter) && Same(less, nodes[r.iter.node].vals[r.iter.position], key)
    {
      ValidLinked(if root == EMPTY then {EMPTY} else {});
      LowerMonotone(less, Contents(), key);
      var it := Descend(v => less(v, key));
      r := InternalLast(it);
      if r.At? {
        MarkValue(T(), r.iter);
        if less(key, nodes[r.iter.node].vals[r.iter.position]) {
          r := Nowhere;
        }
      }
      CutSame(less, Contents(), key, Mark(T(), it));
    }

    /** `begin()` */
    method Begin() returns (it: Iter)
      requires Valid()
      ensures it == Iter(nodes[root].parent, 0) && Standing(T(), it) && Mark(T(), it) == 0
      ensures root != EMPTY ==> OnValue(T(), it)
    {
      it := Iter(nodes[root].parent, 0);
      MarkInLeaf(T(), it);
      assert Filled(T(), if root == EMPTY then {EMPTY} else {}, it.node);
    }

    /** `end()` */
    method End() returns (it: Iter)
      requires Valid()
      ensures it == Iter(rightmost, |nodes[rightmost].vals|) && Standing(T(), it) && Mark(T(), it) == |Contents()|
    {
      it := Iter(rightmost, |nodes[rightmost].vals|);
    }

    /** `operator++`: to the next index; from the last value to `end()`. */
    method Increment(from: Iter) returns (it: Iter)
      requires Kept({}) && OnValue(T(), from)
      ensures Standing(T(), it) && Mark(T(), it) == Mark(T(), from) + 1
      ensures Mark(T(), from) + 1 < |Contents()| ==> OnValue(T(), it)
      ensures Mark(T(), from) + 1 == |Contents()| ==> it == Iter(rightmost, |nodes[rightmost].vals|)
    {
      MarkValue(T(), from);
      it := from;
      if nodes[it.node].leaf {
        it := Iter(it.node, it.position + 1);
        MarkInLeaf(T(), from);
        MarkInLeaf(T(), it);
        if it.position < |nodes[it.node].vals| {
          MarkValue(T(), it);
          return;
        }
        it := ClimbRight(it);
      } else {
        RankBetween(T(), it.node, it.position);
        var leaf := LeftmostUnder(nodes[it.node].kids[it.position + 1]);
        it := Iter(leaf, 0);
        MarkInLeaf(T(), it);
        MarkValue(T(), it);
      }
    }

    /** The climb of `increment_slow`, which gives up at the root. */
    method ClimbRight(save: Iter) returns (it: Iter)
      requires Kept({}) && save.node in nodes && nodes[save.node].leaf && save.position == |nodes[save.node].vals|
      ensures Standing(T(), it) && Mark(T(), it) == Mark(T(), save)
      ensures Mark(T(), save) < |Contents()| ==> OnValue(T(), it)
      ensures Mark(T(), save) == |Contents()| ==> it == Iter(rightmost, |nodes[rightmost].vals|)
    {
      it := save;
      RootTest(cap, T(), rightmost, {}, it.node);
      while it.position == |nodes[it.node].vals| && !nodes[nodes[it.node].parent].leaf
        invariant it.node in nodes && 0 <= it.position <= |nodes[it.node].vals| && Mark(T(), it) == Mark(T(), save)
        invariant nodes[it.node].parent in nodes && (nodes[nodes[it.node].parent].leaf <==> it.node == root)
        decreases Depth(T(), it.node)
      {
        MarkClimbs(T(), it.node);
        it := Iter(nodes[it.node].parent, nodes[it.node].position);
        RootTest(cap, T(), rightmost, {}, it.node);
      }
      if it.position == |nodes[it.node].vals| {
        StartOfRoot(T());
        it := save;
        RightEndUnique(T(), save.node, rightmost);
      } else {
        MarkValue(T(), it);
      }
    }

    /** Down the first children. */
    method LeftmostUnder(from: Id) returns (leaf: Id)
      requires Kept({}) && from in nodes
      ensures leaf in nodes && nodes[leaf].leaf && nodes[leaf].vals != [] && StartOf(T(), leaf) == StartOf(T(), from)
    {
      leaf := from;
      while !nodes[leaf].leaf
        invariant leaf in nodes && leaf in level && StartOf(T(), leaf) == StartOf(T(), from)
        decreases level[leaf]
      {
        OuterKids(T(), leaf);
        leaf := nodes[leaf].kids[0];
      }
      assert Filled(T(), {}, leaf);
    }

    /** Down the last children. */
    method RightmostUnder(from: Id) returns (leaf: Id)
      requires Kept({}) && from in nodes
      ensures leaf in nodes && nodes[leaf].leaf && nodes[leaf].vals != []
      ensures StartOf(T(), leaf) + |Sub(T(), leaf)| == StartOf(T(), from) + |Sub(T(), from)|
    {
      leaf := from;
      while !nodes[leaf].leaf
        invariant leaf in nodes && leaf in level
        invariant StartOf(T(), leaf) + |Sub(T(), leaf)| == StartOf(T(), from) + |Sub(T(), from)|
        decreases level[leaf]
      {
        OuterKids(T(), leaf);
        leaf := nodes[leaf].kids[|nodes[leaf].vals|];
      }
      assert Filled(T(), {}, leaf);
    }

    /** `operator--`: to the index before. */
    method Decrement(from: Iter) returns (it: Iter)
      requires Kept({}) && Standing(T(), from) && Mark(T(), from) > 0
      ensures OnValue(T(), it) && Mark(T(), it) + 1 == Mark(T(), from)
      ensures !nodes[from.node].leaf ==> nodes[it.node].leaf
    {
      it := from;
      if nodes[it.node].leaf {
        it := Iter(it.node, it.position - 1);
        MarkInLeaf(T(), from);
        if it.position >= 0 {
          MarkInLeaf(T(), it);
          return;
        }
        it := ClimbLeft(from.node);
      } else {
        RankBetween(T(), it.node, it.position);
        var leaf := RightmostUnder(nodes[it.node].kids[it.position]);
        it := Iter(leaf, |nodes[leaf].vals| - 1);
        MarkInLeaf(T(), it);
        SubOfLeaf(T(), leaf);
      }
    }

    /** The climb of `decrement_slow` from before the first value of a leaf. */
    method ClimbLeft(leaf: Id) returns (it: Iter)
      requires Kept({}) && leaf in nodes && StartOf(T(), leaf) > 0
      ensures OnValue(T(), it) && Mark(T(), it) + 1 == StartOf(T(), leaf)
    {
      it := Iter(leaf, -1);
      RootTest(cap, T(), rightmost, {}, it.node);
      while it.position < 0 && !nodes[nodes[it.node].parent].leaf
        invariant it.node in nodes && -1 <= it.position
        invariant nodes[it.node].parent in nodes && (nodes[nodes[it.node].parent].leaf <==> it.node == root)
        invariant if it.position < 0 then StartOf(T(), it.node) == StartOf(T(), leaf)
                  else OnValue(T(), it) && Mark(T(), it) + 1 == StartOf(T(), leaf)
        decreases Depth(T(), it.node)
      {
        LeftStep(T(), it.node);
        it := Iter(nodes[it.node].parent, nodes[it.node].position - 1);
        RootTest(cap, T(), rightmost, {}, it.node);
      }
      StartOfRoot(T());
    }

    // ----- moving values and children between nodes -----

    /** `init_child` for the children of `q` from the `from`-th on. */
    method InitChildren(q: Id, from: nat)
      requires q in nodes && AllIn(nodes, nodes[q].kids)
      modifies this`nodes
      ensures nodes == Adopt(old(nodes), q, old(nodes[q].kids), from)
    {
      var kids, i := nodes[q].kids, from;
      while i < |kids|
        invariant AllIn(nodes, kids) && Adopt(nodes, q, kids, i) == Adopt(old(nodes), q, kids, from)
      {
        nodes := nodes[kids[i] := nodes[kids[i]].(parent := q, position := i)];
        i := i + 1;
      }
    }

    /** `split`, where `x` keeps `k` values and the next one goes up to the parent. */
    method SplitAfter(x: Id, k: nat, n: Id)
      requires CanSplit(T(), x, k, n)
      modifies this`nodes, this`level
      ensures IsSplit(old(T()), x, k, n, T()) && nodes.Keys == old(nodes.Keys) + {n}
    {
      ghost var m := T();
      SplitFacts(m, x, k, n);
      var X := nodes[x];
      var p, j, P := X.parent, X.position, nodes[X.parent];
      var halves := BtreeSlots.Halves(X.vals, k);
      var written := nodes[x := X.(vals := halves.0, kids := if X.leaf then [] else X.kids[..k + 1])]
                          [p := P.(vals := P.vals[..j] + [halves.1] + P.vals[j..],
                                   kids := P.kids[..j + 1] + [n] + P.kids[j + 1..])]
                          [n := Node(X.leaf, X.maxCount, p, j + 1, halves.2,
                                     if X.leaf then [] else X.kids[k + 1..])];
      SplitCompletes(m, x, k, n, written, level[n := level[x]]);
      level := level[n := level[x]];
      nodes := written;
      InitChildren(p, j + 1);
      InitChildren(n, 0);
    }

    /** `merge_nodes`: the right neighbour's values and children move to the left node with the value
        between the two, and the right node goes. */
    method MergeNodes(x: Id, y: Id)
      requires CanMerge(T(), x, y)
      modifies this`nodes, this`level, this`rightmost
      ensures IsMerge(old(T()), x, y, T()) && nodes.Keys == old(nodes.Keys) - {y}
      ensures rightmost == if old(rightmost) == y then x else old(rightmost)
    {
      ghost var t := T();
      MergeFacts(t, x, y);
      var X, Y := nodes[x], nodes[y];
      var p, j, P := X.parent, X.position, nodes[X.parent];
      var written := (nodes - {y})[x := X.(vals := X.vals + [P.vals[j]] + Y.vals, kids := X.kids + Y.kids)]
                                  [p := P.(vals := P.vals[..j] + P.vals[j + 1..],
                                           kids := P.kids[..j + 1] + P.kids[j + 2..])];
      MergeCompletes(t, x, y, written);
      level := level - {y};
      nodes := written;
      InitChildren(x, |X.kids|);
      InitChildren(p, j + 1);
      if rightmost == y {
        rightmost := x;
      }
    }

    /** `rebalance_right_to_left` */
    method RebalanceRightToLeft(toMove: nat, x: Id, y: Id) returns (ghost k: nat)
      requires CanMerge(T(), x, y) && nodes[x].maxCount == nodes[y].maxCount && 0 < toMove <= |nodes[y].vals|
      modifies this`nodes
      ensures k == old(|nodes[x].vals|) + toMove && IsShare(old(T()), x, y, k, T()) && nodes.Keys == old(nodes.Keys)
    {
      ghost var t := T();
      MergeFacts(t, x, y);
      var X, Y := nodes[x], nodes[y];
      var p, j, P, leaf := X.parent, X.position, nodes[X.parent], X.leaf;
      k := |X.vals| + toMove;
      var moved := BtreeSlots.GiveLeft(X.vals, P.vals[j], Y.vals, toMove);
      var written := nodes[x := X.(vals := moved.0, kids := if leaf then [] else X.kids + Y.kids[..toMove])]
                          [y := Y.(vals := moved.2, kids := if leaf then [] else Y.kids[toMove..])]
                          [p := P.(vals := P.vals[j := moved.1])];
      LeftCompletes(t, x, y, k, written);
      nodes := written;
      InitChildren(x, |X.kids|);
      InitChildren(y, 0);
    }

    /** `rebalance_left_to_right` */
    method RebalanceLeftToRight(toMove: nat, x: Id, y: Id) returns (ghost k: nat)
      requires CanMerge(T(), x, y) && nodes[x].maxCount == nodes[y].maxCount && 0 < toMove <= |nodes[x].vals|
      modifies this`nodes
      ensures k == old(|nodes[x].vals|) - toMove && IsShare(old(T()), x, y, k, T()) && nodes.Keys == old(nodes.Keys)
    {
      ghost var t := T();
      MergeFacts(t, x, y);
      var X, Y := nodes[x], nodes[y];
      var p, j, P, leaf, keep := X.parent, X.position, nodes[X.parent], X.leaf, |X.vals| - toMove;
      k := keep;
      var moved := BtreeSlots.GiveRight(X.vals, P.vals[j], Y.vals, toMove);
      var written := nodes[x := X.(vals := moved.0, kids := if leaf then [] else X.kids[..keep + 1])]
                          [y := Y.(vals := moved.2, kids := if leaf then [] else X.kids[keep + 1..] + Y.kids)]
                          [p := P.(vals := P.vals[j := moved.1])];
      RightCompletes(t, x, y, keep, written);
      nodes := written;
      InitChildren(y, 0);
    }

    // ----- making room -----

    /** Hands values to the left neighbour; the place of the new value may move there too. */
    method HandLeft(it: Iter, left: Id, toMove: nat) returns (at: Iter)
      requires Kept({}) && IsFull(cap, T(), it) && CanMerge(T(), left, it.node) && nodes[left].maxCount == cap
      requires 0 < toMove && |nodes[left].vals| + toMove <= cap && 0 < |nodes[left].vals|
      requires it.position >= toMove || |nodes[left].vals| + toMove < cap
      modifies this`nodes
      ensures RoomMade(cap, old(T()), it, T(), rightmost, at) && nodes.Keys == old(nodes.Keys)
      ensures CountOf(T(), left) == old(CountOf(T(), left)) + toMove
    {
      ghost var t, count := T(), |nodes[left].vals|;
      ghost var c := count + 1 + it.position;
      assert it == SharedPlace(left, it.node, count, c);
      ghost var k := RebalanceRightToLeft(toMove, left, it.node);
      ShareMakesRoom(cap, t, rightmost, left, it.node, k, c, T());
      at := Iter(it.node, it.position - toMove);
      if at.position < 0 {
        at := Iter(left, at.position + |nodes[left].vals| + 1);
      }
      assert at == SharedPlace(left, it.node, k, c);
    }

    /** Hands values to the right neighbour. */
    method HandRight(it: Iter, right: Id, toMove: nat) returns (at: Iter)
      requires Kept({}) && IsFull(cap, T(), it) && CanMerge(T(), it.node, right) && nodes[right].maxCount == cap
      requires 0 < toMove && |nodes[right].vals| + toMove <= cap && 0 < |nodes[right].vals|
      requires it.position <= cap - toMove || |nodes[right].vals| + toMove < cap
      modifies this`nodes
      ensures RoomMade(cap, old(T()), it, T(), rightmost, at) && nodes.Keys == old(nodes.Keys)
      ensures CountOf(T(), it.node) == cap - toMove
    {
      ghost var t, c := T(), it.position as nat;
      assert it == SharedPlace(it.node, right, cap, c);
      ghost var k := RebalanceLeftToRight(toMove, it.node, right);
      ShareMakesRoom(cap, t, rightmost, it.node, right, k, c, T());
      at := it;
      if at.position > |nodes[it.node].vals| {
        at := Iter(right, at.position - |nodes[it.node].vals| - 1);
      }
      assert at == SharedPlace(it.node, right, k, c);
    }

    /** The first attempt of `rebalance_or_split`: hand values to the left neighbour. */
    method TryLeft(it: Iter) returns (done: bool, at: Iter)
      requires Kept({}) && IsFull(cap, T(), it) && it.node != root && nodes[it.node].position > 0
      modifies this`nodes
      ensures done ==> RoomMade(cap, old(T()), it, T(), rightmost, at) && nodes.Keys == old(nodes.Keys)
      ensures !done ==> nodes == old(nodes)
      ensures var left := LeftOf(old(T()), it.node); var count := CountOf(old(T()), left);
        && (done <==> LeftHelps(cap, count, it.position))
        && (done ==> CountOf(T(), left) == count + Given(cap, count, it.position >= cap))
    {
      done, at := false, it;
      LeftSibling(cap, T(), rightmost, {}, it.node);
      var left := nodes[nodes[it.node].parent].kids[nodes[it.node].position - 1];
      var count := |nodes[left].vals|;
      assert Filled(T(), {}, left);
      if count < cap {
        var toMove := (cap - count) / (if it.position < cap then 2 else 1);
        toMove := if toMove < 1 then 1 else toMove;
        if it.position - toMove >= 0 || count + toMove < cap {
          at := HandLeft(it, left, toMove);
          done := true;
        }
      }
    }

    /** The second: to the right neighbour. */
    method TryRight(it: Iter) returns (done: bool, at: Iter)
      requires Kept({}) && IsFull(cap, T(), it) && it.node != root && nodes[it.node].parent in nodes
      requires nodes[it.node].position < |nodes[nodes[it.node].parent].vals|
      modifies this`nodes
      ensures done ==> RoomMade(cap, old(T()), it, T(), rightmost, at) && nodes.Keys == old(nodes.Keys)
      ensures !done ==> nodes == old(nodes)
      ensures var count := CountOf(old(T()), RightOf(old(T()), it.node));
        && (done <==> RightHelps(cap, count, it.position))
        && (done ==> CountOf(T(), it.node) == cap - Given(cap, count, it.position <= 0))
    {
      done, at := false, it;
      RightSibling(cap, T(), rightmost, {}, it.node);
      var right := nodes[nodes[it.node].parent].kids[nodes[it.node].position + 1];
      var count := |nodes[right].vals|;
      assert Filled(T(), {}, right);
      if count < cap {
        var toMove := (cap - count) / (if it.position > 0 then 2 else 1);
        toMove := if toMove < 1 then 1 else toMove;
        if it.position <= cap - toMove || count + toMove < cap {
          at := HandRight(it, right, toMove);
          done := true;
        }
      }
    }

    /** Both attempts, the left neighbour first. */
    method TryNeighbours(it: Iter) returns (done: bool, at: Iter)
      requires Kept({}) && root != EMPTY && IsFull(cap, T(), it) && it.node != root
      modifies this`nodes
      ensures done ==> RoomMade(cap, old(T()), it, T(), rightmost, at) && nodes.Keys == old(nodes.Keys)
      ensures !done ==> nodes == old(nodes)
    {
      done, at := false, it;
      ParentLinks(T(), it.node);
      assert Shape(T(), nodes[it.node].parent);
      if nodes[it.node].position > 0 {
        done, at := TryLeft(it);
      }
      if !done && nodes[it.node].position < |nodes[nodes[it.node].parent].vals| {
        done, at := TryRight(it);
      }
    }

    /** A new root above the old one. */
    method GrowRoot()
      requires Kept({}) && root != EMPTY && nodes[root].maxCount == cap
      modifies this`nodes, this`level, this`root, this`nextId
      ensures Ready(cap, old(T()), old(root), T(), rightmost) && Allocated() && root != EMPTY
    {
      ghost var t := T();
      var r := nextId;
      nextId := nextId + 1;
      ReadyGrown(cap, t, rightmost, r);
      nodes := nodes[root := nodes[root].(parent := r)][r := Node(false, cap, nodes[root].parent, 0, [], [root])];
      level := level[r := level[root] + 1];
      root := r;
    }

    /** Splits a node into a new one, which may become the rightmost leaf. */
    method SplitInto(x: Id, k: nat) returns (n: Id)
      requires Allocated() && root != EMPTY && root in nodes && CanSplit(T(), x, k, nextId)
      modifies this`nodes, this`level, this`rightmost, this`nextId
      ensures n == old(nextId) && IsSplit(old(T()), x, k, n, T())
      ensures rightmost == (if old(rightmost) == x then n else old(rightmost)) && Allocated()
    {
      n := nextId;
      SplitAfter(x, k, n);
      nextId := nextId + 1;
      if rightmost == x {
        rightmost := n;
      }
    }

    /** The split of a full node, biased by where the new value is to go. */
    method SplitFull(it: Iter, ghost t: Tree<V>) returns (at: Iter)
      requires Allocated() && root != EMPTY && WellFormed(t) && Ready(cap, t, it.node, T(), rightmost)
      requires IsFull(cap, t, it)
      modifies this`nodes, this`level, this`rightmost, this`nextId
      ensures RoomMade(cap, t, it, T(), rightmost, at) && Allocated() && root != EMPTY
      ensures IsSplit(old(T()), it.node, SplitPoint(cap, it.position), old(nextId), T())
    {
      ghost var u, right := T(), rightmost;
      var destCount := if it.position == 0 then cap - 1 else if it.position == cap then 0 else cap / 2;
      var k := cap - destCount - 1;
      SplitPointFits(cap, it.position);
      ReadyCanSplit(cap, t, it, u, right, k, nextId);
      var n := SplitInto(it.node, k);
      at := if it.position > k then Iter(n, it.position - k - 1) else it;
      ReadySplits(cap, t, it, u, right, k, n, T());
    }

    /** `rebalance_or_split` */
    method RebalanceOrSplit(it: Iter) returns (at: Iter)
      requires Kept({}) && root != EMPTY && IsFull(cap, T(), it)
      modifies this`nodes, this`level, this`root, this`rightmost, this`nextId
      ensures RoomMade(cap, old(T()), it, T(), rightmost, at) && Allocated() && root != EMPTY
      decreases Depth(T(), it.node)
    {
      ghost var t := T();
      if it.node != root {
        var done;
        done, at := TryNeighbours(it);
        if done { return; }
        ParentLinks(t, it.node);
        assert Shape(t, nodes[it.node].parent);
        var parent := nodes[it.node].parent;
        if |nodes[parent].vals| == cap {
          assert Fits(cap, t, parent);
          var up := RebalanceOrSplit(Iter(parent, nodes[it.node].position));
          ReadyAbove(cap, t, old(rightmost), it.node, T(), rightmost, up);
        } else {
          assert Fits(cap, t, parent);
          ReadyNow(cap, t, rightmost, it.node);
        }
      } else {
        GrowRoot();
      }
      at := SplitFull(it, t);
    }

    /** The root, a leaf smaller than the others may be, is replaced by one twice as large. */
    method GrowLeafRoot()
      requires Kept({}) && root != EMPTY && nodes[root].leaf && |nodes[root].vals| == nodes[root].maxCount < cap
      modifies this`nodes, this`level, this`root, this`rightmost, this`nextId
      ensures Kept({}) && root != EMPTY && nodes[root].leaf && |nodes[root].vals| < nodes[root].maxCount
      ensures nodes[root].maxCount == cap || nodes[root].maxCount == 2 * old(nodes[root].maxCount) < cap
      ensures Contents() == old(Contents()) && StartOf(T(), root) == 0
    {
      ghost var t := T();
      RootLeaf(cap, t, rightmost, {});
      var vals, max := nodes[root].vals, nodes[root].maxCount;
      var newRoot := nextId;
      nextId := nextId + 1;
      nodes := map[newRoot := Node(true, if 2 * max < cap then 2 * max else cap, newRoot, 0, vals, [])];
      level := map[newRoot := 0];
      root := newRoot;
      rightmost := newRoot;
      assert Filled(t, {}, t.root);
      assert T() == OneLeaf(newRoot, if 2 * max < cap then 2 * max else cap, vals);
      OneLeafSound(cap, newRoot, if 2 * max < cap then 2 * max else cap, vals, {});
    }

    /** In a leaf, a place for one more value at index `r`. */
    ghost predicate Open(at: Iter, r: nat)
      reads this
    {
      && root != EMPTY && Kept({at.node}) && at.node in nodes && nodes[at.node].leaf
      && StartOf(T(), at.node) + at.position == r
      && 0 <= at.position <= |nodes[at.node].vals| < nodes[at.node].maxCount
    }

    /** A tree that has just been given its first leaf. */
    ghost predicate NewTree()
      reads this
    {
      root != EMPTY && Kept({root}) && nodes[root].leaf && nodes[root].vals == [] && nodes[root].maxCount > 0
    }

    /** The same index in a leaf: a value of an internal node comes right behind one of a leaf. */
    method ToLeaf(from: Iter) returns (it: Iter)
      requires (Kept({}) || NewTree()) && Standing(T(), from)
      ensures it.node in nodes && nodes[it.node].leaf && 0 <= it.position <= |nodes[it.node].vals|
      ensures StartOf(T(), it.node) + it.position == Mark(T(), from)
    {
      it := from;
      if !nodes[it.node].leaf {
        if NewTree() { RootLeaf(cap, T(), rightmost, {root}); }
        RankBetween(T(), it.node, it.position);
        assert Filled(T(), {}, nodes[it.node].kids[it.position]);
        NonEmptySub(T(), nodes[it.node].kids[it.position]);
        it := Decrement(it);
        it := Iter(it.node, it.position + 1);
        MarkInLeaf(T(), it);
        MarkInLeaf(T(), Iter(it.node, it.position - 1));
      } else {
        MarkInLeaf(T(), it);
      }
    }

    /** Room for one more value where the leaf is full. */
    method MakeRoom(it: Iter) returns (at: Iter)
      requires ((Kept({}) && root != EMPTY) || NewTree()) && it.node in nodes && nodes[it.node].leaf
      requires 0 <= it.position <= |nodes[it.node].vals|
      modifies this`nodes, this`level, this`root, this`rightmost, this`nextId
      ensures Open(at, old(StartOf(T(), it.node)) + it.position) && Contents() == old(Contents())
    {
      ghost var t := T();
      at := it;
      if NewTree() { RootLeaf(cap, t, rightmost, {root}); }
      assert Fits(cap, t, it.node);
      if |nodes[it.node].vals| == nodes[it.node].maxCount {
        if nodes[it.node].maxCount < cap {
          RootLeaf(cap, t, rightmost, {});
          GrowLeafRoot();
          at := Iter(root, it.position);
          RootLeaf(cap, T(), rightmost, {});
          MoreSpare(cap, T(), rightmost, {}, {root});
        } else {
          at := RebalanceOrSplit(it);
        }
      } else if Kept({}) {
        MoreSpare(cap, t, rightmost, {}, {it.node});
      }
    }

    /** `emplace_value` in a leaf with room. */
    method EmplaceInLeaf(at: Iter, v: V, ghost r: nat)
      requires Open(at, r)
      modifies this`nodes, this`size
      ensures root != EMPTY && Kept({}) && size == old(size) + 1 && r <= old(|Contents()|)
      ensures Contents() == Inserted(old(Contents()), r, v)
      ensures OnValue(T(), at) && nodes[at.node].vals[at.position] == v && Mark(T(), at) == r
    {
      ghost var t := T();
      var vals := nodes[at.node].vals;
      LeafInsert(cap, t, rightmost, at.node, at.position, v);
      nodes := nodes[at.node := nodes[at.node].(vals := vals[..at.position] + [v] + vals[at.position..])];
      assert T() == SetVals(t, at.node, vals[..at.position] + [v] + vals[at.position..]);
      size := size + 1;
      MarkInLeaf(T(), at);
    }

    /** `internal_emplace` */
    method InternalEmplace(from: Iter, v: V) returns (at: Iter)
      requires ((Kept({}) && root != EMPTY) || NewTree()) && Standing(T(), from)
      modifies this`nodes, this`level, this`root, this`rightmost, this`nextId, this`size
      ensures root != EMPTY && Kept({}) && size == old(size) + 1 && old(Mark(T(), from)) <= old(|Contents()|)
      ensures Contents() == Inserted(old(Contents()), old(Mark(T(), from)), v)
      ensures OnValue(T(), at) && nodes[at.node].vals[at.position] == v && Mark(T(), at) == old(Mark(T(), from))
    {
      ghost var r := Mark(T(), from);
      var it := ToLeaf(from);
      at := MakeRoom(it);
      EmplaceInLeaf(at, v, r);
    }

    /** The first leaf of an empty tree. */
    method FirstLeaf()
      requires Valid() && root == EMPTY
      modifies this`nodes, this`level, this`root, this`rightmost, this`nextId
      ensures NewTree() && Contents() == [] && nodes[root].maxCount == 1
    {
      var n := nextId;
      nextId := nextId + 1;
      nodes := map[n := Node(true, 1, n, 0, [], [])];
      level := map[n := 0];
      root := n;
      rightmost := n;
      assert T() == OneLeaf(n, 1, []);
      OneLeafSound<V>(cap, n, 1, [], {n});
    }

    /** `insert_unique` */
    method InsertUnique(v: V) returns (it: Iter, inserted: bool)
      requires Valid()
      modifies this
      ensures Valid() && OnValue(T(), it) && Same(less, nodes[it.node].vals[it.position], v)
      ensures inserted <==> !Member(less, old(Contents()), v)
      ensures Contents() == With(less, old(Contents()), v)
      ensures inserted ==> nodes[it.node].vals[it.position] == v
      ensures !inserted ==> Contents() == old(Contents())
    {
      ghost var s := Contents();
      if root == EMPTY {
        EmptyContents();
        FirstLeaf();
        ValidLinked({root});
      } else {
        ValidLinked({});
      }
      LowerMonotone(less, s, v);
      it := Descend(x => less(x, v));
      CutSame(less, s, v, Mark(T(), it));
      var last := InternalLast(it);
      if last.At? {
        MarkValue(T(), last.iter);
        if !less(v, nodes[last.iter.node].vals[last.iter.position]) {
          WithCut(less, s, v, Mark(T(), it));
          return last.iter, false;
        }
      }
      it := EmplaceAtCut(it, v);
      inserted := true;
    }

    /** The insertion of a value that is not there yet, at the first greater one. */
    method EmplaceAtCut(from: Iter, v: V) returns (it: Iter)
      requires ((Kept({}) && root != EMPTY) || NewTree()) && Standing(T(), from)
      requires StrictOrder(less) && Sorted(less, Contents()) && size == |Contents()|
      requires Cuts(x => less(x, v), Contents(), Mark(T(), from))
      requires Mark(T(), from) == |Contents()| || less(v, Contents()[Mark(T(), from)])
      modifies this
      ensures Valid() && Contents() == With(less, old(Contents()), v)
      ensures OnValue(T(), it) && nodes[it.node].vals[it.position] == v
    {
      ghost var s, r := Contents(), Mark(T(), from);
      WithCut(less, s, v, r);
      SortedInserted(less, s, r, v);
      it := InternalEmplace(from, v);
    }

    /** The insertion both hints lead to, in between two neighbours. */
    method InsertBetween(at: Iter, v: V) returns (it: Iter)
      requires Valid() && root != EMPTY && Standing(T(), at) && Mark(T(), at) <= |Contents()|
      requires Mark(T(), at) > 0 ==> less(Contents()[Mark(T(), at) - 1], v)
      requires Mark(T(), at) < |Contents()| ==> less(v, Contents()[Mark(T(), at)])
      modifies this
      ensures Valid() && OnValue(T(), it) && nodes[it.node].vals[it.position] == v && Same(less, v, v)
      ensures !Member(less, old(Contents()), v) && Contents() == With(less, old(Contents()), v)
    {
      WithBetween(less, Contents(), v, Mark(T(), at));
      it := InternalEmplace(at, v);
    }

    ghost predicate IsHint(hint: Iter)
      reads this
    {
      rightmost in nodes && (OnValue(T(), hint) || hint == Iter(rightmost, |nodes[rightmost].vals|))
    }

    /** Whether the value belongs right before the position. */
    method BelongsBefore(hint: Iter, v: V) returns (fits: bool)
      requires Valid() && root != EMPTY && IsHint(hint)
      ensures Standing(T(), hint) && Mark(T(), hint) <= |Contents()|
      ensures fits ==> (Mark(T(), hint) > 0 ==> less(Contents()[Mark(T(), hint) - 1], v))
    {
      if OnValue(T(), hint) { MarkValue(T(), hint); }
      assert Filled(T(), {}, root);
      NonEmptySub(T(), root);
      var begin := Begin();
      fits := hint == begin;
      if !fits {
        if OnValue(T(), hint) && Mark(T(), hint) == 0 { MarkZero(cap, T(), rightmost, hint); }
        var prev := Decrement(hint);
        MarkValue(T(), prev);
        fits := less(nodes[prev.node].vals[prev.position], v);
      }
    }

    /** `insert_hint_unique`: whatever the hint, the outcome is that of `insert_unique`. */
    method InsertHintUnique(hint: Iter, v: V) returns (it: Iter, inserted: bool)
      requires Valid() && IsHint(hint)
      modifies this
      ensures Valid() && OnValue(T(), it) && Same(less, nodes[it.node].vals[it.position], v)
      ensures inserted <==> !Member(less, old(Contents()), v)
      ensures Contents() == With(less, old(Contents()), v)
      ensures inserted ==> nodes[it.node].vals[it.position] == v
      ensures !inserted ==> Contents() == old(Contents())
    {
      if root != EMPTY {
        var end := End();
        if hint != end { MarkValue(T(), hint); }
        if hint == end || less(v, nodes[hint.node].vals[hint.position]) {
          var fits := BelongsBefore(hint, v);
          if fits {
            it := InsertBetween(hint, v);
            return it, true;
          }
        } else if less(nodes[hint.node].vals[hint.position], v) {
          var next := Increment(hint);
          if next != end { MarkValue(T(), next); }
          if next == end || less(v, nodes[next.node].vals[next.position]) {
            it := InsertBetween(next, v);
            return it, true;
          }
        } else {
          WithMember(less, Contents(), v, Mark(T(), hint));
          return hint, false;
        }
      }
      it, inserted := InsertUnique(v);
    }

    lemma {:induction false} EmptyContents()
      requires Valid() && root == EMPTY
      ensures Contents() == []
    {
      OneLeafSound<V>(cap, EMPTY, 1, [], {EMPTY});
      assert T() == OneLeaf(EMPTY, 1, []);
    }

    // ----- erasing -----

    /** The node may have too few values. */
    ghost predicate Lacking(it: Iter)
      reads this
    {
      && root != EMPTY && Kept({it.node}) && it.node in nodes && it.node != root && nodes[it.node].parent in nodes
      && 0 <= it.position <= |nodes[it.node].vals| < cap / 2
    }

    method TryMergeLeft(it: Iter) returns (merged: bool, at: Iter)
      requires Lacking(it) && nodes[it.node].position > 0
      modifies this`nodes, this`level, this`rightmost
      ensures Allocated()
      ensures merged ==> at.node in nodes && Rebalanced(cap, old(T()), it, T(), rightmost, at, {nodes[at.node].parent})
      ensures !merged ==> T() == old(T()) && rightmost == old(rightmost)
      ensures merged <==> FitsBeside(cap, old(T()), it.node, -1)
      ensures merged ==> nodes.Keys < old(nodes.Keys)
    {
      merged, at := false, it;
      LeftSibling(cap, T(), rightmost, {it.node}, it.node);
      var left := nodes[nodes[it.node].parent].kids[nodes[it.node].position - 1];
      var count := |nodes[left].vals|;
      if 1 + count + |nodes[it.node].vals| <= cap {
        ghost var t, right, c := T(), rightmost, count + 1 + it.position;
        MergeNodes(left, it.node);
        merged, at := true, Iter(left, it.position + 1 + count);
        MergeRebalances(cap, t, right, {it.node}, left, it.node, c, T());
      }
    }

    method TryMergeRight(it: Iter) returns (merged: bool)
      requires Lacking(it) && nodes[it.node].position < |nodes[nodes[it.node].parent].vals|
      modifies this`nodes, this`level, this`rightmost
      ensures Allocated()
      ensures it.node in nodes
      ensures merged ==> Rebalanced(cap, old(T()), it, T(), rightmost, it, {nodes[it.node].parent})
      ensures !merged ==> T() == old(T()) && rightmost == old(rightmost)
      ensures merged <==> FitsBeside(cap, old(T()), it.node, 1)
      ensures merged ==> nodes.Keys < old(nodes.Keys)
    {
      merged := false;
      RightSibling(cap, T(), rightmost, {it.node}, it.node);
      var right := nodes[nodes[it.node].parent].kids[nodes[it.node].position + 1];
      if 1 + |nodes[it.node].vals| + |nodes[right].vals| <= cap {
        ghost var t, end, c := T(), rightmost, it.position as nat;
        MergeNodes(it.node, right);
        merged := true;
        MergeRebalances(cap, t, end, {it.node}, it.node, right, c, T());
      }
    }

    /** Takes values from the right neighbour, unless the first value has gone from a node that is not empty. */
    method TryTakeRight(it: Iter) returns (done: bool)
      requires Lacking(it) && nodes[it.node].position < |nodes[nodes[it.node].parent].vals|
      modifies this`nodes
      ensures Allocated()
      ensures done ==> Rebalanced(cap, old(T()), it, T(), rightmost, it, {}) && nodes.Keys == old(nodes.Keys)
      ensures !done ==> nodes == old(nodes)
      ensures var right := RightOf(old(T()), it.node);
        && (done <==> CountOf(old(T()), right) > cap / 2 && (CountOf(old(T()), it.node) == 0 || it.position > 0))
        && (done ==> 0 <= CountOf(T(), right) - CountOf(T(), it.node) <= 1)
    {
      done := false;
      RightSibling(cap, T(), rightmost, {it.node}, it.node);
      var right := nodes[nodes[it.node].parent].kids[nodes[it.node].position + 1];
      var count := |nodes[right].vals|;
      assert Fits(cap, T(), right);
      if count > cap / 2 && (|nodes[it.node].vals| == 0 || it.position > 0) {
        var toMove := (count - |nodes[it.node].vals|) / 2;
        toMove := if toMove < count - 1 then toMove else count - 1;
        ghost var t, c := T(), it.position as nat;
        ghost var k := RebalanceRightToLeft(toMove, it.node, right);
        done := true;
        ShareRebalances(cap, t, rightmost, {it.node}, it.node, right, k, c, T());
      }
    }

    /** Takes values from the left neighbour, unless the last value has gone from a node that is not empty. */
    method TryTakeLeft(it: Iter) returns (done: bool, at: Iter)
      requires Lacking(it) && nodes[it.node].position > 0
      modifies this`nodes
      ensures Allocated()
      ensures done ==> Rebalanced(cap, old(T()), it, T(), rightmost, at, {}) && nodes.Keys == old(nodes.Keys)
      ensures !done ==> nodes == old(nodes)
      ensures var left, count := LeftOf(old(T()), it.node), CountOf(old(T()), it.node);
        && (done <==> CountOf(old(T()), left) > cap / 2 && (count == 0 || it.position < count))
        && (done ==> 0 <= CountOf(T(), left) - CountOf(T(), it.node) <= 1)
    {
      done, at := false, it;
      LeftSibling(cap, T(), rightmost, {it.node}, it.node);
      var left := nodes[nodes[it.node].parent].kids[nodes[it.node].position - 1];
      var count := |nodes[left].vals|;
      assert Fits(cap, T(), left);
      if count > cap / 2 && (|nodes[it.node].vals| == 0 || it.position < |nodes[it.node].vals|) {
        var toMove := (count - |nodes[it.node].vals|) / 2;
        toMove := if toMove < count - 1 then toMove else count - 1;
        ghost var t, c := T(), count + 1 + it.position;
        ghost var k := RebalanceLeftToRight(toMove, left, it.node);
        done, at := true, Iter(it.node, it.position + toMove);
        ShareRebalances(cap, t, rightmost, {it.node}, left, it.node, k, c, T());
      }
    }

    /** `try_merge_or_rebalance`: afterwards no node is empty, except perhaps the parent of two merged ones. */
    method TryMergeOrRebalance(it: Iter) returns (merged: bool, at: Iter)
      requires Lacking(it)
      modifies this`nodes, this`level, this`rightmost
      ensures Allocated() && at.node in nodes
      ensures Rebalanced(cap, old(T()), it, T(), rightmost, at, if merged then {nodes[at.node].parent} else {})
      ensures merged <==> FitsBeside(cap, old(T()), it.node, -1) || FitsBeside(cap, old(T()), it.node, 1)
      ensures if merged then nodes.Keys < old(nodes.Keys) else nodes.Keys == old(nodes.Keys)
    {
      merged, at := TryMerge(it);
      if !merged {
        at := TryTake(it);
      }
    }

    /** First a merge with the left neighbour, then with the right one. */
    method TryMerge(it: Iter) returns (merged: bool, at: Iter)
      requires Lacking(it)
      modifies this`nodes, this`level, this`rightmost
      ensures Allocated()
      ensures merged ==> at.node in nodes && Rebalanced(cap, old(T()), it, T(), rightmost, at, {nodes[at.node].parent})
      ensures !merged ==> T() == old(T()) && rightmost == old(rightmost)
      ensures merged <==> FitsBeside(cap, old(T()), it.node, -1) || FitsBeside(cap, old(T()), it.node, 1)
      ensures merged ==> nodes.Keys < old(nodes.Keys)
    {
      merged, at := false, it;
      ParentLinks(T(), it.node);
      assert Shape(T(), nodes[it.node].parent);
      if nodes[it.node].position > 0 {
        merged, at := TryMergeLeft(it);
      }
      if !merged && nodes[it.node].position < |nodes[nodes[it.node].parent].vals| {
        merged := TryMergeRight(it);
        at := it;
      }
    }

    /** Where no merge is possible: values from the right neighbour, else from the left one, else nothing. */
    method TryTake(it: Iter) returns (at: Iter)
      requires Lacking(it) && !FitsBeside(cap, T(), it.node, -1) && !FitsBeside(cap, T(), it.node, 1)
      modifies this`nodes
      ensures Allocated() && at.node in nodes && nodes.Keys == old(nodes.Keys)
      ensures Rebalanced(cap, old(T()), it, T(), rightmost, at, {})
    {
      ghost var t := T();
      at := it;
      assert Filled(t, {it.node}, nodes[it.node].parent);
      ParentLinks(t, it.node);
      assert Shape(t, nodes[it.node].parent);
      var done := false;
      if nodes[it.node].position < |nodes[nodes[it.node].parent].vals| {
        done := TryTakeRight(it);
      }
      if !done && nodes[it.node].position > 0 {
        done, at := TryTakeLeft(it);
      }
      if !done {
        at := it;
        Unbalanced(cap, t, rightmost, it);
      }
    }


    /** The leaf holds index `r` or ends before it. */
    ghost predicate InLeaf(it: Iter, r: nat)
      reads this
    {
      it.node in nodes && nodes[it.node].leaf && 0 <= it.position <= |nodes[it.node].vals|
      && StartOf(T(), it.node) + it.position == r
    }

    /** The static empty node takes the place of the tree. */
    method BecomeEmpty()
      requires Allocated()
      modifies this`nodes, this`level, this`root, this`rightmost
      ensures IsEmpty() && Kept({EMPTY}) && Contents() == [] && Landed(Iter(EMPTY, 0), 0)
    {
      nodes, level := map[EMPTY := EmptyNode()], map[EMPTY := 0];
      root, rightmost := EMPTY, EMPTY;
      EmptyKept();
    }

    /** The only child of the root takes its place. */
    method LowerRoot(ghost res: Iter, ghost r: nat)
      requires root != EMPTY && Kept({root}) && InLeaf(res, r) && !nodes[root].leaf && nodes[root].vals == []
      modifies this`nodes, this`level, this`root
      ensures Contents() == old(Contents()) && root != EMPTY && Kept({}) && InLeaf(res, r)
      ensures nodes.Keys < old(nodes.Keys)
    {
      ghost var t := T();
      ShrinkPlace(cap, t, rightmost, res.node);
      assert Shape(t, root) && Down(t, root, 0);
      var child := nodes[root].kids[0];
      level := level - {root};
      nodes := (nodes - {root})[child := nodes[child].(parent := nodes[root].parent)];
      root := child;
      assert T() == Shrink(t);
    }

    /** `try_shrink` */
    method TryShrink(ghost res: Iter, ghost r: nat)
      requires root != EMPTY && Kept({root}) && InLeaf(res, r)
      modifies this`nodes, this`level, this`root, this`rightmost
      ensures Contents() == old(Contents()) && Allocated()
      ensures root == EMPTY ==> IsEmpty() && Contents() == []
      ensures root != EMPTY ==> Kept({}) && InLeaf(res, r)
      ensures root != EMPTY ==> nodes.Keys <= old(nodes.Keys)
    {
      if |nodes[root].vals| > 0 {
        NoSpare(cap, T(), rightmost, root);
      } else if nodes[root].leaf {
        RootLeaf(cap, T(), rightmost, {root});
        BecomeEmpty();
      } else {
        LowerRoot(res, r);
      }
    }

    /** The loop of `rebalance_after_delete`: up the tree while nodes merge. */
    method ClimbAfterDelete(it: Iter, ghost r: nat) returns (res: Iter)
      requires root != EMPTY && Kept({it.node}) && InLeaf(it, r)
      modifies this`nodes, this`level, this`root, this`rightmost
      ensures Contents() == old(Contents()) && Allocated()
      ensures root == EMPTY ==> IsEmpty() && Contents() == []
      ensures root != EMPTY ==> Kept({}) && InLeaf(res, r)
      ensures it.node != old(root) && cap / 2 <= old(CountOf(T(), it.node)) ==> T() == old(T()) && res == it
      ensures it.node != old(root) && old(CountOf(T(), it.node)) < cap / 2 && root != EMPTY ==>
        if old(Merges(it)) then nodes.Keys < old(nodes.Keys) else nodes.Keys == old(nodes.Keys)
    {
      var cur, first := it, true;
      res := it;
      while true
        invariant root != EMPTY && Climbing(cur, res, first, r) && Contents() == old(Contents())
        invariant first ==> cur == it && T() == old(T())
        invariant !first ==> nodes.Keys < old(nodes.Keys) && old(Merges(it))
        decreases Depth(T(), cur.node)
      {
        if cur.node == root {
          TryShrink(res, r);
          return;
        }
        StepUp(cap, T(), rightmost, {cur.node}, cur);
        if |nodes[cur.node].vals| >= cap / 2 {
          NoSpare(cap, T(), rightmost, cur.node);
          return;
        }
        var merged;
        merged, cur, res := ClimbStep(cur, res, first, r);
        if !merged {
          return;
        }
        first := false;
      }
    }

    /** The leaf has so few values that it is merged with a neighbour. */
    ghost predicate Merges(it: Iter)
      reads this
    {
      CountOf(T(), it.node) < cap / 2 && (FitsBeside(cap, T(), it.node, -1) || FitsBeside(cap, T(), it.node, 1))
    }

    /** The climb stands at `cur`, and the iterator to return in a leaf below. */
    ghost predicate Climbing(cur: Iter, res: Iter, first: bool, r: nat)
      reads this
    {
      && Kept({cur.node}) && cur.node in nodes && 0 <= cur.position <= |nodes[cur.node].vals|
      && InLeaf(res, r) && cur.node in level && res.node in level
      && if first then cur == res else level[res.node] < level[cur.node]
    }

    /** One round: the node is merged or gets values; after a merge the climb goes on with the parent. */
    method ClimbStep(cur: Iter, res: Iter, first: bool, ghost r: nat) returns (merged: bool, next: Iter, place: Iter)
      requires root != EMPTY && Climbing(cur, res, first, r) && Lacking(cur)
      modifies this`nodes, this`level, this`rightmost
      ensures Contents() == old(Contents()) && Allocated() && (merged <==> old(Merges(cur)))
      ensures if merged then nodes.Keys < old(nodes.Keys) else nodes.Keys == old(nodes.Keys)
      ensures merged ==> Climbing(next, place, false, r) && Depth(T(), next.node) < old(Depth(T(), cur.node))
      ensures !merged ==> Kept({}) && InLeaf(place, r)
    {
      ghost var t := T();
      assert Shape(t, res.node);
      var at;
      merged, at := TryMergeOrRebalance(cur);
      next, place := cur, if first then at else res;
      if !first {
        PlaceSurvives(cap, t, cur, T(), rightmost, at, if merged then {nodes[at.node].parent} else {}, res.node);
      }
      if merged {
        StepUp(cap, T(), rightmost, {nodes[at.node].parent}, at);
        assert LowerSame(t, T(), t.level[cur.node], res.node);
        next := Iter(nodes[at.node].parent, nodes[at.node].position);
      }
    }

    /** The iterator is on the value at index `r`, or is `end()` if there is none. */
    ghost predicate Landed(it: Iter, r: nat)
      reads this
    {
      && Standing(T(), it) && Mark(T(), it) == r && rightmost in nodes
      && (r < |Contents()| ==> OnValue(T(), it))
      && (r == |Contents()| ==> it == Iter(rightmost, |nodes[rightmost].vals|))
    }

    /** `rebalance_after_delete` */
    method RebalanceAfterDelete(it: Iter, ghost r: nat) returns (res: Iter)
      requires root != EMPTY && Kept({it.node}) && InLeaf(it, r)
      modifies this`nodes, this`level, this`root, this`rightmost
      ensures Contents() == old(Contents()) && Allocated()
      ensures root == EMPTY ==> IsEmpty() && Contents() == [] && res == Iter(EMPTY, 0)
      ensures root != EMPTY ==> Kept({}) && Landed(res, r)
    {
      res := ClimbAfterDelete(it, r);
      if root == EMPTY {
        return Iter(rightmost, |nodes[rightmost].vals|);
      }
      MarkInLeaf(T(), res);
      if res.position == |nodes[res.node].vals| {
        assert Filled(T(), {}, res.node);
        res := Iter(res.node, |nodes[res.node].vals| - 1);
        MarkInLeaf(T(), res);
        res := Increment(res);
        InPlace(T(), res.node);
      } else {
        MarkValue(T(), res);
      }
    }

    /** `remove_value` in a leaf. */
    method RemoveFromLeaf(it: Iter)
      requires Kept({}) && root != EMPTY && OnValue(T(), it) && nodes[it.node].leaf && size > 0
      modifies this`nodes, this`size
      ensures Kept({it.node}) && InLeaf(it, old(Mark(T(), it))) && size == old(size) - 1
      ensures Contents() == Without(old(Contents()), old(Mark(T(), it)))
    {
      ghost var t := T();
      MarkInLeaf(t, it);
      var vals := nodes[it.node].vals;
      LeafRemove(cap, t, rightmost, it.node, it.position);
      nodes := nodes[it.node := nodes[it.node].(vals := vals[..it.position] + vals[it.position + 1..])];
      assert T() == SetVals(t, it.node, vals[..it.position] + vals[it.position + 1..]);
      size := size - 1;
    }

    /** A value of an internal node gives way to the one before it, which is in a leaf. */
    method MoveUp(at: Iter) returns (it: Iter)
      requires Kept({}) && root != EMPTY && OnValue(T(), at) && !nodes[at.node].leaf
      modifies this`nodes
      ensures Kept({}) && OnValue(T(), it) && nodes[it.node].leaf
      ensures Mark(T(), it) + 1 == old(Mark(T(), at)) < old(|Contents()|)
      ensures Contents() == old(Contents())[old(Mark(T(), at)) := old(Contents())[old(Mark(T(), at)) - 1]]
    {
      ghost var t := T();
      RankBetween(t, at.node, at.position);
      assert Filled(t, {}, nodes[at.node].kids[at.position]);
      NonEmptySub(t, nodes[at.node].kids[at.position]);
      it := Decrement(at);
      MarkValue(t, it);
      MarkInLeaf(t, it);
      var w := nodes[it.node].vals[it.position];
      InternalSet(cap, t, rightmost, at.node, at.position, w);
      SetSameStart(t, at.node, nodes[at.node].vals[at.position := w], it.node);
      nodes := nodes[at.node := nodes[at.node].(vals := nodes[at.node].vals[at.position := w])];
      assert T() == SetVals(t, at.node, t.nodes[at.node].vals[at.position := w]);
      MarkInLeaf(T(), it);
    }

    /** Erasing from a leaf. */
    method EraseInLeaf(it: Iter) returns (next: Iter)
      requires Kept({}) && root != EMPTY && OnValue(T(), it) && nodes[it.node].leaf && size == |Contents()|
      modifies this
      ensures Contents() == Without(old(Contents()), old(Mark(T(), it))) && size == |Contents()|
      ensures Landed(next, old(Mark(T(), it))) && Kept(if root == EMPTY then {EMPTY} else {})
      ensures (root == EMPTY ==> IsEmpty())
    {
      ghost var s, r := Contents(), Mark(T(), it);
      MarkValue(T(), it);
      RemoveFromLeaf(it);
      next := RebalanceAfterDelete(it, r);
      if root == EMPTY {
        EmptyKept();
      }
    }

    /** `erase`: exactly the value pointed at goes, and the result points at what then stands in its place. */
    method Erase(at: Iter) returns (next: Iter)
      requires Valid() && OnValue(T(), at)
      modifies this
      ensures Valid() && Contents() == Without(old(Contents()), old(Mark(T(), at)))
      ensures Landed(next, old(Mark(T(), at)))
    {
      ghost var s, r := Contents(), Mark(T(), at);
      MarkValue(T(), at);
      SortedWithout(less, s, r);
      var it, internalDelete := at, false;
      if !nodes[at.node].leaf {
        it := MoveUp(at);
        internalDelete := true;
        WithoutMoved(s, r);
      }
      next := EraseInLeaf(it);
      if internalDelete {
        next := Increment(next);
      }
    }

    lemma {:induction false} EmptyKept()
      requires IsEmpty()
      ensures Kept({EMPTY}) && Contents() == [] && Landed(Iter(EMPTY, 0), 0)
    {
      OneLeafSound<V>(cap, EMPTY, 1, [], {EMPTY});
      assert T() == OneLeaf(EMPTY, 1, []);
      MarkInLeaf(T(), Iter(EMPTY, 0));
    }

    /** `erase_unique` */
    method EraseUnique(key: V) returns (erased: bool)
      requires Valid()
      modifies this
      ensures Valid() && erased == old(Member(less, Contents(), key))
      ensures Contents() == Minus(less, old(Contents()), key)
    {
      var found := Find(key);
      if found == Nowhere {
        MinusNone(less, Contents(), key);
        return false;
      }
      MarkValue(T(), found.iter);
      MinusAt(less, Contents(), key, Mark(T(), found.iter));
      var next := Erase(found.iter);
      return true;
    }

    /** `clear` */
    method Clear()
      requires Valid()
      modifies this
      ensures Valid() && Contents() == []
    {
      BecomeEmpty();
      size := 0;
    }

    // ----- the tree's own check -----

    /** `internal_verify`: every assertion holds, and the count is that of the subtree. */
    method InternalVerify(node: Id, lo: Bound<V>, hi: Bound<V>) returns (ok: bool, count: nat)
      requires Valid() && root != EMPTY && node in nodes && IsBelow(T(), node, lo) && IsAbove(T(), node, hi)
      ensures ok && count == |Sub(T(), node)|
      decreases level[node]
    {
      assert Filled(T(), {}, node) && Fits(cap, T(), node);
      OrderChecks(less, T(), node, lo, hi);
      var vals := nodes[node].vals;
      ok := 0 < |vals| <= nodes[node].maxCount;
      ok := ok && (lo.Bounded? ==> !less(vals[0], lo.v)) && (hi.Bounded? ==> !less(hi.v, vals[|vals| - 1]));
      for i := 1 to |vals|
        invariant ok
      {
        ok := ok && !less(vals[i], vals[i - 1]);
      }
      count := |vals|;
      if nodes[node].leaf {
        SubOfLeaf(T(), node);
      } else {
        SubOfInternal(T(), node);
        ghost var fs := Subs(T(), nodes[node].kids);
        for i := 0 to |vals| + 1
          invariant ok && count + i == |vals| + Off(fs, i)
        {
          KidBounds(T(), node, i, lo, hi);
          assert Down(T(), node, i);
          OffNext(fs, i);
          var kid := nodes[node].kids[i];
          ok := ok && nodes[kid].parent == node && nodes[kid].position == i;
          var fine, more := InternalVerify(kid, if i == 0 then lo else Bounded(vals[i - 1]),
                                           if i == |vals| then hi else Bounded(vals[i]));
          ok, count := ok && fine, count + more;
        }
        WeaveLength(fs, vals);
      }
    }

    /** `verify` never fails. */
    method Verify() returns (ok: bool)
      requires Valid()
      ensures ok
    {
      ok := true;
      if root != EMPTY {
        StartOfRoot(T());
        var count;
        ok, count := InternalVerify(root, Unbounded, Unbounded);
        ok := ok && size == count;
        var left := LeftmostUnder(root);
        var right := RightmostUnder(root);
        LeftEndUnique(T(), left, nodes[root].parent);
        RightEndUnique(T(), right, rightmost);
        ok := ok && left == nodes[root].parent && right == rightmost;
      }
      ok := ok && nodes[nodes[root].parent].leaf && nodes[rightmost].leaf;
    }
  }

  // ----- every run -----

  datatype Op<V> = Insert(v: V) | EraseKey(v: V) | Lookup(v: V) | ClearAll

  /** What an operation does to the sorted sequence. */
  ghost function Apply<V>(less: (V, V) -> bool, s: seq<V>, op: Op<V>): seq<V> {
    match op
    case Insert(v) => With(less, s, v)
    case EraseKey(v) => Minus(less, s, v)
    case Lookup(_) => s
    case ClearAll => []
  }

  ghost function AnswerOf<V>(less: (V, V) -> bool, s: seq<V>, op: Op<V>): bool {
    match op
    case Insert(v) => !Member(less, s, v)
    case EraseKey(v) => Member(less, s, v)
    case Lookup(v) => Member(less, s, v)
    case ClearAll => true
  }

  ghost function Answers<V>(less: (V, V) -> bool, s: seq<V>, ops: seq<Op<V>>): seq<bool>
    decreases |ops|
  {
    if ops == [] then [] else [AnswerOf(less, s, ops[0])] + Answers(less, Apply(less, s, ops[0]), ops[1..])
  }

  ghost function Final<V>(less: (V, V) -> bool, s: seq<V>, ops: seq<Op<V>>): seq<V>
    decreases |ops|
  {
    if ops == [] then s else Final(less, Apply(less, s, ops[0]), ops[1..])
  }

  method Step<V(!new)>(tree: BTree<V>, op: Op<V>) returns (answer: bool)
    requires tree.Valid()
    modifies tree
    ensures tree.Valid() && tree.Contents() == Apply(tree.less, old(tree.Contents()), op)
    ensures answer == AnswerOf(tree.less, old(tree.Contents()), op)
  {
    match op
    case Insert(v) =>
      var it;
      it, answer := tree.InsertUnique(v);
    case EraseKey(v) =>
      answer := tree.EraseUnique(v);
    case Lookup(v) =>
      var place := tree.Find(v);
      answer := place.At?;
    case ClearAll =>
      tree.Clear();
      answer := true;
  }

  /** After `k` operations: the answers so far, and the sequence from which the others go on. */
  ghost predicate RunTo<V>(less: (V, V) -> bool, ops: seq<Op<V>>, k: nat, answers: seq<bool>, s: seq<V>) {
    && k <= |ops| && answers + Answers(less, s, ops[k..]) == Answers(less, [], ops)
    && Final(less, s, ops[k..]) == Final(less, [], ops)
  }

  lemma {:induction false} RunOn<V>(less: (V, V) -> bool, ops: seq<Op<V>>, k: nat, answers: seq<bool>, s: seq<V>)
    requires RunTo(less, ops, k, answers, s) && k < |ops|
    ensures RunTo(less, ops, k + 1, answers + [AnswerOf(less, s, ops[k])], Apply(less, s, ops[k]))
  {
    assert ops[k..][1..] == ops[k + 1..];
    var a, rest := AnswerOf(less, s, ops[k]), Answers(less, Apply(less, s, ops[k]), ops[k + 1..]);
    assert answers + ([a] + rest) == (answers + [a]) + rest;
  }

  /** Whatever the node size, the search and the operations, the tree answers as a plain sorted sequence
      does, and holds what it holds. */
  method Run<V(!new)>(cap: nat, linear: bool, less: (V, V) -> bool, ops: seq<Op<V>>)
    returns (answers: seq<bool>, tree: BTree<V>)
    requires 3 <= cap && StrictOrder(less)
    ensures answers == Answers(less, [], ops)
    ensures tree.Valid() && tree.Contents() == Final(less, [], ops)
  {
    tree := new BTree(cap, linear, less);
    answers := [];
    var k := 0;
    assert ops[0..] == ops;
    while k < |ops|
      invariant tree.Valid() && tree.less == less && RunTo(less, ops, k, answers, tree.Contents())
    {
      RunOn(less, ops, k, answers, tree.Contents());
      var answer := Step(tree, ops[k]);
      answers := answers + [answer];
      k := k + 1;
    }
  }
}
