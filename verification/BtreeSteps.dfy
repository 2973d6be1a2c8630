/** What the structural steps do to a position, and to everything below the level they work on. */
module BtreeSteps {
  import opened BtreeModel
  import opened BtreeShape
  import opened BtreeChange
  import opened BtreePlace
  import opened BtreeLinks
  import opened BtreeSearch

  /** Both name the same place: in a leaf the same index of the whole sequence, in an internal node the same
      child. */
  ghost predicate SamePlace<V>(t: Tree<V>, a: Iter, u: Tree<V>, b: Iter) {
    && a.node in t.nodes && b.node in u.nodes && 0 <= a.position && 0 <= b.position <= |u.nodes[b.node].vals|
    && t.nodes[a.node].leaf == u.nodes[b.node].leaf
    && (t.nodes[a.node].leaf ==> StartOf(u, b.node) + b.position == StartOf(t, a.node) + a.position)
    && (!t.nodes[a.node].leaf ==> a.position < |t.nodes[a.node].kids| && b.position < |u.nodes[b.node].kids|
                                  && u.nodes[b.node].kids[b.position] == t.nodes[a.node].kids[a.position])
  }

  /** The place `c` places into the values of `x`, the value between, and the values of its neighbour `y`,
      when `x` has `k` of them. */
  ghost function SharedPlace(x: Id, y: Id, k: nat, c: nat): Iter {
    if c <= k then Iter(x, c) else Iter(y, c - (k + 1))
  }

  lemma {:induction false} ShareLeafStarts<V>(t: Tree<V>, x: Id, y: Id, k: nat)
    requires CanShare(t, x, y, k) && t.nodes[x].leaf
    ensures StartOf(t, y) == StartOf(t, x) + |t.nodes[x].vals| + 1
    ensures StartOf(Share(t, x, y, k), x) == StartOf(t, x) && StartOf(Share(t, x, y, k), y) == StartOf(t, x) + k + 1
  {
    ShareKeeps(t, x, y, k, x);
    MergeFacts(t, x, y);
    MergeKeeps(t, x, y, x);
    ShareRecords(t, x, y, k);
    SubOfLeaf(t, x);
    SubOfLeaf(Share(t, x, y, k), x);
  }

  lemma {:induction false} SharedKid(a: seq<Id>, b: seq<Id>, k: nat, c: nat)
    requires c < |a| + |b| && k < |a| + |b|
    ensures if c <= k then c < |Take(a + b, k + 1)| && Take(a + b, k + 1)[c] == (a + b)[c]
            else c - (k + 1) < |Drop(a + b, k + 1)| && Drop(a + b, k + 1)[c - (k + 1)] == (a + b)[c]
  {
  }

  lemma {:induction false} ShareSizes<V>(t: Tree<V>, x: Id, y: Id, k: nat)
    requires CanShare(t, x, y, k)
    ensures x in Share(t, x, y, k).nodes && y in Share(t, x, y, k).nodes
    ensures var X, Y, A, B := t.nodes[x], t.nodes[y], Share(t, x, y, k).nodes[x], Share(t, x, y, k).nodes[y];
      && A.leaf == X.leaf == B.leaf == Y.leaf && |A.vals| == k && |B.vals| == |X.vals| + |Y.vals| - k
      && A.kids == Take(X.kids + Y.kids, k + 1) && B.kids == Drop(X.kids + Y.kids, k + 1)
      && (!X.leaf ==> |X.kids| == |X.vals| + 1 && |Y.kids| == |Y.vals| + 1)
  {
    ShareRecords(t, x, y, k);
  }

  lemma {:induction false} ShareSameLeaf<V>(t: Tree<V>, x: Id, y: Id, k: nat, c: nat)
    requires CanShare(t, x, y, k) && c <= |t.nodes[x].vals| + 1 + |t.nodes[y].vals| && t.nodes[x].leaf
    ensures SamePlace(t, SharedPlace(x, y, |t.nodes[x].vals|, c), Share(t, x, y, k), SharedPlace(x, y, k, c))
  {
    ShareSizes(t, x, y, k);
    ShareLeafStarts(t, x, y, k);
  }

  lemma {:induction false} ShareSameKid<V>(t: Tree<V>, x: Id, y: Id, k: nat, c: nat)
    requires CanShare(t, x, y, k) && c <= |t.nodes[x].vals| + 1 + |t.nodes[y].vals| && !t.nodes[x].leaf
    ensures SamePlace(t, SharedPlace(x, y, |t.nodes[x].vals|, c), Share(t, x, y, k), SharedPlace(x, y, k, c))
  {
    ShareSizes(t, x, y, k);
    var X, Y := t.nodes[x], t.nodes[y];
    SharedKid(X.kids, Y.kids, k, c);
    assert (X.kids + Y.kids)[c] == if c < |X.kids| then X.kids[c] else Y.kids[c - |X.kids|];
  }

  lemma {:induction false} ShareSamePlace<V>(t: Tree<V>, x: Id, y: Id, k: nat, c: nat)
    requires CanShare(t, x, y, k) && c <= |t.nodes[x].vals| + 1 + |t.nodes[y].vals|
    ensures SamePlace(t, SharedPlace(x, y, |t.nodes[x].vals|, c), Share(t, x, y, k), SharedPlace(x, y, k, c))
  {
    if t.nodes[x].leaf {
      ShareSameLeaf(t, x, y, k, c);
    } else {
      ShareSameKid(t, x, y, k, c);
    }
  }

  lemma {:induction false} SplitSamePlace<V>(m: Tree<V>, x: Id, k: nat, n: Id, c: nat)
    requires CanSplit(m, x, k, n) && c <= |m.nodes[x].vals|
    ensures SamePlace(m, Iter(x, c), SplitAt(m, x, k, n), SharedPlace(x, n, k, c))
  {
    var t, X := SplitAt(m, x, k, n), m.nodes[x];
    SplitFacts(m, x, k, n);
    if X.leaf {
      SplitWellFormed(m, x, k, n);
      SplitStart(m, x, k, n, x);
      SplitNewStart(m, x, k, n);
      SubOfLeaf(t, x);
    }
  }

  // ----- below the level of the step -----

  /** A node below level `lv` keeps all but its links, and its place. */
  ghost predicate LowerSame<V>(t: Tree<V>, u: Tree<V>, lv: nat, id: Id) {
    id in t.nodes && id in t.level && t.level[id] < lv ==>
      && id in u.nodes && id in u.level && u.level[id] == t.level[id] && id != u.root
      && u.nodes[id] == t.nodes[id].(parent := u.nodes[id].parent, position := u.nodes[id].position)
      && StartOf(u, id) == StartOf(t, id)
  }

  ghost predicate SameBelow<V>(t: Tree<V>, u: Tree<V>, lv: nat) {
    forall id :: LowerSame(t, u, lv, id)
  }

  lemma {:induction false} ShareLower<V>(t: Tree<V>, x: Id, y: Id, k: nat, id: Id)
    requires CanShare(t, x, y, k)
    ensures x in t.level && LowerSame(t, Share(t, x, y, k), t.level[x], id)
  {
    MergeFacts(t, x, y);
    if id in t.nodes && t.level[id] < t.level[x] {
      assert Shape(t, x);
      ShareRecord(t, x, y, k, id);
      ShareKeeps(t, x, y, k, id);
      ShareLevels(t, x, y, k);
    }
  }

  lemma {:induction false} SplitLower<V>(m: Tree<V>, x: Id, k: nat, n: Id, id: Id)
    requires CanSplit(m, x, k, n)
    ensures x in m.level && LowerSame(m, SplitAt(m, x, k, n), m.level[x], id)
  {
    SplitFacts(m, x, k, n);
    if id in m.nodes && m.level[id] < m.level[x] {
      assert Shape(m, x);
      SplitStart(m, x, k, n, id);
    }
  }

  lemma {:induction false} GrowLower<V>(m: Tree<V>, r: Id, maxCount: nat, id: Id)
    requires CanGrow(m, r)
    ensures m.root in m.level && LowerSame(m, Grow(m, r, maxCount), m.level[m.root] + 1, id)
  {
    if id in m.nodes {
      GrowKeeps(m, r, maxCount, id);
    }
  }

  /** A node as full as it may be, somewhere below the root, and the places in it. */
  lemma {:induction false} Siblings<V>(cap: nat, t: Tree<V>, rightmost: Id, spare: set<Id>, x: Id, y: Id)
    requires Sound(cap, t, rightmost, spare) && x in t.nodes && y in t.nodes && x != t.root && y != t.root
    requires t.nodes[y].parent == t.nodes[x].parent && t.nodes[y].position == t.nodes[x].position + 1
    ensures CanMerge(t, x, y) && t.nodes[x].maxCount == cap && t.nodes[y].maxCount == cap && t.level[x] == t.level[y]
  {
    ParentLinks(t, x);
    ParentLinks(t, y);
    assert Fits(cap, t, x) && Fits(cap, t, y);
  }

  lemma {:induction false} LeftSibling<V>(cap: nat, t: Tree<V>, rightmost: Id, spare: set<Id>, y: Id)
    requires Sound(cap, t, rightmost, spare) && y in t.nodes && y != t.root && t.nodes[y].position > 0
    ensures t.nodes[y].parent in t.nodes && t.nodes[y].position - 1 < |t.nodes[t.nodes[y].parent].kids|
    ensures var x := t.nodes[t.nodes[y].parent].kids[t.nodes[y].position - 1];
      x in t.nodes && x != y && CanMerge(t, x, y)
      && t.nodes[x].maxCount == cap && t.nodes[y].maxCount == cap && t.level[x] == t.level[y]
  {
    ParentLinks(t, y);
    var p := t.nodes[y].parent;
    var x := t.nodes[p].kids[t.nodes[y].position - 1];
    assert Down(t, p, t.nodes[y].position - 1);
    Siblings(cap, t, rightmost, spare, x, y);
  }

  lemma {:induction false} RightSibling<V>(cap: nat, t: Tree<V>, rightmost: Id, spare: set<Id>, x: Id)
    requires Sound(cap, t, rightmost, spare) && x in t.nodes && x != t.root && t.nodes[x].parent in t.nodes
    requires t.nodes[x].position < |t.nodes[t.nodes[x].parent].vals|
    ensures t.nodes[x].position + 1 < |t.nodes[t.nodes[x].parent].kids|
    ensures var y := t.nodes[t.nodes[x].parent].kids[t.nodes[x].position + 1];
      y in t.nodes && x != y && CanMerge(t, x, y)
      && t.nodes[x].maxCount == cap && t.nodes[y].maxCount == cap && t.level[x] == t.level[y]
  {
    ParentLinks(t, x);
    var p := t.nodes[x].parent;
    assert Shape(t, p);
    var y := t.nodes[p].kids[t.nodes[x].position + 1];
    assert Down(t, p, t.nodes[x].position + 1);
    Siblings(cap, t, rightmost, spare, x, y);
  }

  // ----- making room for one more value -----

  /** In `u` there is room at `at`, which names the same place as `it` did in `t`; only that node may be
      empty, and nothing else has changed for the levels below. */
  ghost predicate RoomMade<V>(cap: nat, t: Tree<V>, it: Iter, u: Tree<V>, rightmost: Id, at: Iter) {
    && Sound(cap, u, rightmost, {at.node}) && SamePlace(t, it, u, at) && Values(u) == Values(t)
    && |u.nodes[at.node].vals| < cap && u.nodes[at.node].maxCount == cap
    && it.node in t.level && at.node in u.level && u.level[at.node] == t.level[it.node]
    && SameBelow(t, u, t.level[it.node])
  }

  ghost predicate IsFull<V>(cap: nat, t: Tree<V>, it: Iter) {
    it.node in t.nodes && |t.nodes[it.node].vals| == cap == t.nodes[it.node].maxCount && 0 <= it.position <= cap
  }

  lemma {:induction false} ShareMakesRoom<V>(cap: nat, t: Tree<V>, rightmost: Id, x: Id, y: Id, k: nat, c: nat,
                                             s: Tree<V>)
    requires Sound(cap, t, rightmost, {}) && IsShare(t, x, y, k, s) && x in t.nodes && y in t.nodes
    requires t.nodes[x].maxCount == cap
    requires 0 < k <= cap && k < |t.nodes[x].vals| + |t.nodes[y].vals| <= k + cap
    requires c <= |t.nodes[x].vals| + 1 + |t.nodes[y].vals|
    requires if c <= k then k < cap else |t.nodes[x].vals| + |t.nodes[y].vals| < k + cap
    ensures RoomMade(cap, t, SharedPlace(x, y, |t.nodes[x].vals|, c), s, rightmost, SharedPlace(x, y, k, c))
    ensures x in s.nodes && |s.nodes[x].vals| == k
  {
    OpenShare(|t.nodes| + 5, t, x, y, k, s);
    ShareSound(cap, t, rightmost, {}, x, y, k);
    ShareSamePlace(t, x, y, k, c);
    ShareEnds(t, x, y, k, rightmost);
    ShareSizes(t, x, y, k);
    ShareLevels(t, x, y, k);
    var at := SharedPlace(x, y, k, c);
    MoreSpare(cap, s, rightmost, {}, {at.node});
    ShareMaxCounts(t, x, y, k);
    MergeFacts(t, x, y);
    forall id ensures LowerSame(t, s, t.level[x], id) {
      ShareLower(t, x, y, k, id);
    }
  }

  lemma {:induction false} ShareMaxCounts<V>(t: Tree<V>, x: Id, y: Id, k: nat)
    requires CanShare(t, x, y, k)
    ensures x in Share(t, x, y, k).nodes && y in Share(t, x, y, k).nodes
    ensures Share(t, x, y, k).nodes[x].maxCount == t.nodes[x].maxCount == Share(t, x, y, k).nodes[y].maxCount
  {
    ShareRecords(t, x, y, k);
  }

  lemma {:induction false} MoreSpare<V>(cap: nat, t: Tree<V>, rightmost: Id, spare: set<Id>, more: set<Id>)
    requires Sound(cap, t, rightmost, spare) && spare <= more
    ensures Sound(cap, t, rightmost, more)
  {
    forall id ensures Filled(t, more, id) {
      assert Filled(t, spare, id);
    }
  }

  lemma {:induction false} NoSpare<V>(cap: nat, t: Tree<V>, rightmost: Id, spare: Id)
    requires Sound(cap, t, rightmost, {spare}) && (spare in t.nodes ==> t.nodes[spare].vals != [])
    ensures Sound(cap, t, rightmost, {})
  {
    forall id ensures Filled(t, {}, id) {
      assert Filled(t, {spare}, id);
    }
  }

  lemma {:induction false} SplitMakesRoom<V>(cap: nat, m: Tree<V>, rightmost: Id, x: Id, k: nat, n: Id, c: nat)
    requires CanSplit(m, x, k, n) && Sound(cap, m, rightmost, {m.nodes[x].parent})
    requires |m.nodes[m.nodes[x].parent].vals| < cap
    requires IsFull(cap, m, Iter(x, c)) && (k == 0 ==> c == 0) && (k + 1 == cap ==> c == cap) && 2 <= cap
    ensures RoomMade(cap, m, Iter(x, c), SplitAt(m, x, k, n),
                     if rightmost == x then n else rightmost, SharedPlace(x, n, k, c))
  {
    var t, at := SplitAt(m, x, k, n), SharedPlace(x, n, k, c);
    SplitSound(cap, m, rightmost, {m.nodes[x].parent}, x, k, n, {at.node});
    SplitSamePlace(m, x, k, n, c);
    SplitEnds(m, x, k, n, rightmost);
    SplitFacts(m, x, k, n);
    assert x in m.level;
    forall id ensures LowerSame(m, t, m.level[x], id) {
      SplitLower(m, x, k, n, id);
    }
  }

  /** `u` is `t` with room made in the parent of `node`. */
  ghost predicate Ready<V>(cap: nat, t: Tree<V>, node: Id, u: Tree<V>, rightmost: Id) {
    && node in t.nodes && node in t.level && node in u.nodes && node != u.root && u.nodes[node].parent in u.nodes
    && Sound(cap, u, rightmost, {u.nodes[node].parent}) && |u.nodes[u.nodes[node].parent].vals| < cap
    && Values(u) == Values(t)
    && SameBelow(t, u, t.level[node] + 1)
  }

  lemma {:induction false} ReadyNow<V>(cap: nat, t: Tree<V>, rightmost: Id, node: Id)
    requires Sound(cap, t, rightmost, {}) && node in t.nodes && node != t.root && t.nodes[node].parent in t.nodes
    requires |t.nodes[t.nodes[node].parent].vals| < cap
    ensures Ready(cap, t, node, t, rightmost)
  {
    MoreSpare(cap, t, rightmost, {}, {t.nodes[node].parent});
    ParentLinks(t, node);
    var lv := t.level[node] + 1;
    forall id ensures LowerSame(t, t, lv, id) {
      assert Shape(t, t.root);
    }
  }

  lemma {:induction false} ReadyGrown<V>(cap: nat, t: Tree<V>, rightmost: Id, r: Id)
    requires Sound(cap, t, rightmost, {}) && r !in t.nodes && t.nodes[t.root].maxCount == cap && 0 < cap
    ensures CanGrow(t, r) && Ready(cap, t, t.root, Grow(t, r, cap), rightmost)
  {
    var none: set<Id> := {};
    GrowSound(cap, t, rightmost, none, r);
    assert none + {r} == {r};
    var lv := t.level[t.root] + 1;
    forall id ensures LowerSame(t, Grow(t, r, cap), lv, id) {
      GrowLower(t, r, cap, id);
    }
  }

  lemma {:induction false} ReadyAbove<V>(cap: nat, t: Tree<V>, rightmost: Id, node: Id, u: Tree<V>, right: Id, up: Iter)
    requires Sound(cap, t, rightmost, {}) && node in t.nodes && node != t.root && t.nodes[node].parent in t.nodes
    requires RoomMade(cap, t, Iter(t.nodes[node].parent, t.nodes[node].position), u, right, up)
    ensures Ready(cap, t, node, u, right)
  {
    ParentLinks(t, node);
    assert u.nodes[up.node].kids[up.position] == node;
    assert Down(u, up.node, up.position);
    var lv := t.level[node] + 1;
    forall id ensures LowerSame(t, u, lv, id) {
      assert LowerSame(t, u, t.level[t.nodes[node].parent], id);
    }
  }

  /** How many values a neighbour with `count` of them is given: half of what it lacks, or all of it where the new
      value is to go to the far end; and one at least. */
  function Given(cap: nat, count: nat, farEnd: bool): (n: nat)
    requires count < cap
    ensures 0 < n && count + n <= cap
  {
    var n := (cap - count) / (if farEnd then 1 else 2);
    if n < 1 then 1 else n
  }

  /** At the far end the neighbour is filled up; otherwise it still lacks as many as it is given, or one more. */
  lemma {:induction false} GivenShare(cap: nat, count: nat, farEnd: bool)
    requires count < cap
    ensures var n := Given(cap, count, farEnd); var lacks := cap - (count + n);
      if farEnd || cap - count == 1 then lacks == 0 else n <= lacks <= n + 1
  {
  }

  /** The neighbour before or after a node. */
  ghost function LeftOf<V>(t: Tree<V>, x: Id): Id {
    if x in t.nodes && t.nodes[x].parent in t.nodes && 0 < t.nodes[x].position <= |t.nodes[t.nodes[x].parent].kids|
    then t.nodes[t.nodes[x].parent].kids[t.nodes[x].position - 1] else x
  }

  ghost function RightOf<V>(t: Tree<V>, x: Id): Id {
    if x in t.nodes && t.nodes[x].parent in t.nodes && t.nodes[x].position + 1 < |t.nodes[t.nodes[x].parent].kids|
    then t.nodes[t.nodes[x].parent].kids[t.nodes[x].position + 1] else x
  }

  ghost function CountOf<V>(t: Tree<V>, x: Id): nat {
    if x in t.nodes then |t.nodes[x].vals| else 0
  }

  /** Giving values away makes room for the new one, in the node or in its neighbour. */
  predicate LeftHelps(cap: nat, count: nat, position: int) {
    count < cap && var n := Given(cap, count, position >= cap); position >= n || count + n < cap
  }

  predicate RightHelps(cap: nat, count: nat, position: int) {
    count < cap && var n := Given(cap, count, position <= 0); position <= cap - n || count + n < cap
  }

  /** Seen from the values of both nodes and the one between them: after the move, the node that the place of the new
      value is in has room. */
  lemma {:induction false} LeftHelpsMeans(cap: nat, count: nat, position: int)
    requires 0 <= position <= cap
    ensures LeftHelps(cap, count, position) <==>
      count < cap && var left := count + Given(cap, count, position == cap);
        if count + 1 + position <= left then left < cap else count + cap - left < cap
  {
  }

  lemma {:induction false} RightHelpsMeans(cap: nat, count: nat, position: int)
    requires 0 <= position <= cap
    ensures RightHelps(cap, count, position) <==>
      count < cap && var left := cap - Given(cap, count, position == 0);
        if position <= left then left < cap else cap + count - left < cap
  {
  }

  /** How many values a full node keeps when it is split: none, all but one, or half, so that values that arrive in
      order leave full nodes behind. */
  function SplitPoint(cap: nat, position: int): nat
    requires 2 <= cap
  {
    if position == 0 then 0 else if position == cap then cap - 1 else cap - cap / 2 - 1
  }

  /** The bias in numbers: a value for the end leaves a node that keeps all values but the one handed up, a value for
      the front a new node that gets them, and any other value two halves. */
  lemma {:induction false} SplitPointBias(cap: nat, position: int)
    requires 3 <= cap && 0 <= position <= cap
    ensures var kept := SplitPoint(cap, position); var given := cap - 1 - kept;
      && (position == cap ==> kept == cap - 1 && given == 0)
      && (position == 0 ==> kept == 0 && given == cap - 1)
      && (0 < position < cap ==> 0 <= given - kept <= 1)
  {
  }

  /** A split at that point puts the new value into a node with room, and leaves the other one filled. */
  lemma {:induction false} SplitPointFits(cap: nat, position: int)
    requires 3 <= cap && 0 <= position <= cap
    ensures var k := SplitPoint(cap, position);
      && k < cap && (k == 0 ==> position == 0) && (k + 1 == cap ==> position == cap)
      && (position <= k ==> 0 < cap - k - 1 && k < cap) && (position > k ==> 0 < k && cap - k - 1 < cap)
  {
  }

  /** With room in the parent, the split makes room at the place asked for. */
  lemma {:induction false} ReadySplits<V>(cap: nat, t: Tree<V>, it: Iter, u: Tree<V>, rightmost: Id, k: nat, n: Id,
                                          w: Tree<V>)
    requires Ready(cap, t, it.node, u, rightmost) && IsFull(cap, t, it) && IsSplit(u, it.node, k, n, w) && k < cap
    requires 2 <= cap
    requires WellFormed(t) && (k == 0 ==> it.position == 0) && (k + 1 == cap ==> it.position == cap)
    ensures RoomMade(cap, t, it, w, if rightmost == it.node then n else rightmost,
                     SharedPlace(it.node, n, k, it.position))
  {
    var x, lv := it.node, t.level[it.node];
    OpenSplit(|u.nodes| + 5, u, x, k, n, w);
    assert LowerSame(t, u, lv + 1, x);
    SplitMakesRoom(cap, u, rightmost, x, k, n, it.position);
    forall id ensures LowerSame(t, w, lv, id) {
      assert LowerSame(t, u, lv + 1, id) && LowerSame(u, w, lv, id);
    }
    assert Shape(t, x);
    SamePlaceChain(t, u, w, it, SharedPlace(x, n, k, it.position));
  }

  lemma {:induction false} ReadyCanSplit<V>(cap: nat, t: Tree<V>, it: Iter, u: Tree<V>, rightmost: Id, k: nat, n: Id)
    requires Ready(cap, t, it.node, u, rightmost) && IsFull(cap, t, it) && n !in u.nodes && k < cap
    ensures CanSplit(u, it.node, k, n)
  {
    assert LowerSame(t, u, t.level[it.node] + 1, it.node);
  }

  lemma {:induction false} SamePlaceChain<V>(t: Tree<V>, u: Tree<V>, w: Tree<V>, it: Iter, at: Iter)
    requires it.node in t.level && LowerSame(t, u, t.level[it.node] + 1, it.node) && SamePlace(u, it, w, at)
    requires it.node in t.nodes
    ensures SamePlace(t, it, w, at)
  {
  }

  // ----- one value more or less in a leaf -----

  ghost function Inserted<V>(s: seq<V>, r: nat, v: V): seq<V> {
    Take(s, r) + [v] + Drop(s, r)
  }

  lemma {:induction false} SpliceInsert<V>(s: seq<V>, at: nat, f: seq<V>, pos: nat, v: V)
    requires Holds(s, at, f) && pos <= |f|
    ensures Splice(s, at, |f|, f[..pos] + [v] + f[pos..]) == Inserted(s, at + pos, v)
  {
    assert s == s[..at] + f + s[at + |f|..];
  }

  lemma {:induction false} SpliceRemove<V>(s: seq<V>, at: nat, f: seq<V>, pos: nat)
    requires Holds(s, at, f) && pos < |f|
    ensures Splice(s, at, |f|, f[..pos] + f[pos + 1..]) == Without(s, at + pos)
  {
    assert s == s[..at] + f + s[at + |f|..];
  }

  /** A value put into a leaf with room comes to stand at the index of its place. */
  lemma {:induction false} LeafInsert<V>(cap: nat, t: Tree<V>, rightmost: Id, x: Id, pos: nat, v: V)
    requires Sound(cap, t, rightmost, {x}) && x in t.nodes && t.nodes[x].leaf
    requires pos <= |t.nodes[x].vals| < t.nodes[x].maxCount
    ensures var vals := t.nodes[x].vals; var u := SetVals(t, x, vals[..pos] + [v] + vals[pos..]);
      && Sound(cap, u, rightmost, {}) && Values(u) == Inserted(Values(t), StartOf(t, x) + pos, v)
      && StartOf(u, x) == StartOf(t, x) && StartOf(t, x) + pos <= |Values(t)|
  {
    var vals := t.nodes[x].vals;
    var vs := vals[..pos] + [v] + vals[pos..];
    assert |vs| == |vals| + 1;
    LeafSet(cap, t, rightmost, x, vs, {x}, {});
    SpliceInsert(Values(t), StartOf(t, x), vals, pos, v);
  }

  /** New values in a leaf, in place of the old in the whole sequence. */
  lemma {:induction false} LeafSet<V>(cap: nat, t: Tree<V>, rightmost: Id, x: Id, vs: seq<V>, spare: set<Id>,
                                      left: set<Id>)
    requires Sound(cap, t, rightmost, spare) && x in t.nodes && t.nodes[x].leaf && |vs| <= t.nodes[x].maxCount
    requires spare <= left + {x} && (vs == [] ==> x in left)
    ensures Sound(cap, SetVals(t, x, vs), rightmost, left) && StartOf(SetVals(t, x, vs), x) == StartOf(t, x)
    ensures Holds(Values(t), StartOf(t, x), t.nodes[x].vals)
    ensures Values(SetVals(t, x, vs)) == Splice(Values(t), StartOf(t, x), |t.nodes[x].vals|, vs)
  {
    SetSound(cap, t, rightmost, spare, x, vs, left);
    SetValues(t, x, vs);
    SetStart(t, x, vs, 0);
    SubOfLeaf(t, x);
    SubOfLeaf(SetVals(t, x, vs), x);
    InPlace(t, x);
  }

  lemma {:induction false} LeafRemove<V>(cap: nat, t: Tree<V>, rightmost: Id, x: Id, pos: nat)
    requires Sound(cap, t, rightmost, {}) && x in t.nodes && t.nodes[x].leaf && pos < |t.nodes[x].vals|
    ensures var vals := t.nodes[x].vals; var u := SetVals(t, x, vals[..pos] + vals[pos + 1..]);
      && Sound(cap, u, rightmost, {x}) && Values(u) == Without(Values(t), StartOf(t, x) + pos)
      && StartOf(u, x) == StartOf(t, x) && StartOf(t, x) + pos < |Values(t)|
  {
    var vals := t.nodes[x].vals;
    var vs := vals[..pos] + vals[pos + 1..];
    assert Fits(cap, t, x);
    LeafSet(cap, t, rightmost, x, vs, {}, {x});
    SpliceRemove(Values(t), StartOf(t, x), vals, pos);
  }

  // ----- a tree of one leaf -----

  ghost function OneLeaf<V>(id: Id, maxCount: nat, vals: seq<V>): Tree<V> {
    Tree(map[id := Node(true, maxCount, id, 0, vals, [])], map[id := 0], id)
  }

  lemma {:induction false} OneLeafSound<V>(cap: nat, id: Id, maxCount: nat, vals: seq<V>, spare: set<Id>)
    requires |vals| <= maxCount <= cap && (vals == [] ==> id in spare)
    ensures Sound(cap, OneLeaf(id, maxCount, vals), id, spare) && Values(OneLeaf(id, maxCount, vals)) == vals
    ensures StartOf(OneLeaf(id, maxCount, vals), id) == 0
  {
    var t := OneLeaf(id, maxCount, vals);
    assert WellFormed(t);
    StartOfRoot(t);
    SubOfLeaf(t, id);
  }

  lemma {:induction false} RootLeaf<V>(cap: nat, t: Tree<V>, rightmost: Id, spare: set<Id>)
    requires Sound(cap, t, rightmost, spare) && t.nodes[t.root].leaf
    ensures t.nodes.Keys == {t.root} && rightmost == t.root && Values(t) == t.nodes[t.root].vals
    ensures StartOf(t, t.root) == 0
  {
    assert Shape(t, t.root);
    forall id | id in t.nodes ensures id == t.root {
      assert Shape(t, id);
    }
    SubOfLeaf(t, t.root);
    StartOfRoot(t);
  }

  // ----- after a value has gone -----

  /** In `u`, `at` names the place `it` named in `t`; nothing has changed for the levels below. */
  ghost predicate Rebalanced<V>(cap: nat, t: Tree<V>, it: Iter, u: Tree<V>, rightmost: Id, at: Iter, spare: set<Id>) {
    && Sound(cap, u, rightmost, spare) && SamePlace(t, it, u, at) && Values(u) == Values(t) && u.root == t.root
    && it.node in t.level && at.node in u.level && u.root in t.level && u.level[at.node] == t.level[it.node]
    && u.root in u.level && u.level[u.root] == t.level[u.root] && at.node != u.root
    && SameBelow(t, u, t.level[it.node])
  }

  lemma {:induction false} ShareCounts<V>(t: Tree<V>, x: Id, y: Id, k: nat, s: Tree<V>)
    requires IsShare(t, x, y, k, s) && x in t.nodes && y in t.nodes && k <= |t.nodes[x].vals| + |t.nodes[y].vals|
    ensures CountOf(s, x) == k && CountOf(s, y) == |t.nodes[x].vals| + |t.nodes[y].vals| - k
  {
    OpenShare(|t.nodes| + 5, t, x, y, k, s);
    ShareRecords(t, x, y, k);
  }

  lemma {:induction false} ShareRebalances<V>(cap: nat, t: Tree<V>, rightmost: Id, spare: set<Id>, x: Id, y: Id,
                                              k: nat, c: nat, s: Tree<V>)
    requires Sound(cap, t, rightmost, spare) && IsShare(t, x, y, k, s) && x in t.nodes && y in t.nodes
    requires spare <= {x, y}
    requires 0 < k <= cap && k < |t.nodes[x].vals| + |t.nodes[y].vals| <= k + cap
    requires c <= |t.nodes[x].vals| + 1 + |t.nodes[y].vals|
    ensures Rebalanced(cap, t, SharedPlace(x, y, |t.nodes[x].vals|, c), s, rightmost, SharedPlace(x, y, k, c), {})
    ensures CountOf(s, x) == k && CountOf(s, y) == |t.nodes[x].vals| + |t.nodes[y].vals| - k
  {
    ShareCounts(t, x, y, k, s);
    OpenShare(|t.nodes| + 5, t, x, y, k, s);
    ShareSound(cap, t, rightmost, spare, x, y, k);
    ShareSamePlace(t, x, y, k, c);
    ShareEnds(t, x, y, k, rightmost);
    ShareLevels(t, x, y, k);
    MergeFacts(t, x, y);
    forall id ensures LowerSame(t, s, t.level[x], id) {
      ShareLower(t, x, y, k, id);
    }
  }

  lemma {:induction false} MergeSamePlace<V>(t: Tree<V>, x: Id, y: Id, c: nat)
    requires CanMerge(t, x, y) && t.nodes[x].maxCount == t.nodes[y].maxCount
    requires c <= |t.nodes[x].vals| + 1 + |t.nodes[y].vals|
    ensures SamePlace(t, SharedPlace(x, y, |t.nodes[x].vals|, c), MergeAt(t, x, y), Iter(x, c))
  {
    var X, Y, m := t.nodes[x], t.nodes[y], MergeAt(t, x, y);
    MergeFacts(t, x, y);
    MergeKids(t, x, y);
    assert m.nodes[x] == X.(vals := X.vals + Delimiter(t, x) + Y.vals, kids := X.kids + Y.kids);
    if X.leaf {
      MergeKeeps(t, x, y, x);
      SubOfLeaf(t, x);
    } else {
      assert (X.kids + Y.kids)[c] == if c < |X.kids| then X.kids[c] else Y.kids[c - |X.kids|];
    }
  }

  lemma {:induction false} MergeLower<V>(t: Tree<V>, x: Id, y: Id, id: Id)
    requires CanMerge(t, x, y) && t.nodes[x].maxCount == t.nodes[y].maxCount
    ensures x in t.level && LowerSame(t, MergeAt(t, x, y), t.level[x], id)
  {
    MergeFacts(t, x, y);
    if id in t.nodes && t.level[id] < t.level[x] {
      assert Shape(t, x);
      MergeRecord(t, x, y, id);
      MergeKeeps(t, x, y, id);
    }
  }

  lemma {:induction false} MergeBelow<V>(t: Tree<V>, x: Id, y: Id)
    requires CanMerge(t, x, y) && t.nodes[x].maxCount == t.nodes[y].maxCount
    ensures x in t.level && SameBelow(t, MergeAt(t, x, y), t.level[x])
  {
    MergeFacts(t, x, y);
    forall id ensures LowerSame(t, MergeAt(t, x, y), t.level[x], id) {
      MergeLower(t, x, y, id);
    }
  }

  lemma {:induction false} MergedRebalances<V>(cap: nat, t: Tree<V>, rightmost: Id, spare: set<Id>, x: Id, y: Id,
                                               c: nat)
    requires Sound(cap, t, rightmost, spare) && CanMerge(t, x, y) && spare <= {x, y}
    requires |t.nodes[x].vals| + 1 + |t.nodes[y].vals| <= cap && c <= |t.nodes[x].vals| + 1 + |t.nodes[y].vals|
    ensures Rebalanced(cap, t, SharedPlace(x, y, |t.nodes[x].vals|, c), MergeAt(t, x, y),
                       if rightmost == y then x else rightmost, Iter(x, c), {t.nodes[x].parent})
  {
    assert Fits(cap, t, x) && Fits(cap, t, y);
    MergeSound(cap, t, rightmost, spare, x, y);
    MergeSamePlace(t, x, y, c);
    MergeEnds(t, x, y, rightmost);
    MergeLevels(t, x, y);
    MergeBelow(t, x, y);
  }

  lemma {:induction false} MergeRebalances<V>(cap: nat, t: Tree<V>, rightmost: Id, spare: set<Id>, x: Id, y: Id,
                                              c: nat, m: Tree<V>)
    requires Sound(cap, t, rightmost, spare) && IsMerge(t, x, y, m) && x in t.nodes && y in t.nodes && spare <= {x, y}
    requires |t.nodes[x].vals| + 1 + |t.nodes[y].vals| <= cap && c <= |t.nodes[x].vals| + 1 + |t.nodes[y].vals|
    ensures x in m.nodes && m.nodes[x].parent == t.nodes[x].parent
    ensures Rebalanced(cap, t, SharedPlace(x, y, |t.nodes[x].vals|, c), m,
                       if rightmost == y then x else rightmost, Iter(x, c), {t.nodes[x].parent})
  {
    OpenMerge(|t.nodes| + 5, t, x, y, m);
    MergeLevels(t, x, y);
    MergedRebalances(cap, t, rightmost, spare, x, y, c);
  }

  lemma {:induction false} MergeLevels<V>(t: Tree<V>, x: Id, y: Id)
    requires CanMerge(t, x, y)
    ensures var m := MergeAt(t, x, y);
      && x in m.nodes && m.nodes[x].parent == t.nodes[x].parent && m.root == t.root && x != m.root
      && x in m.level && y in t.level && m.level[x] == t.level[x] == t.level[y] && t.root in m.level
      && m.level[t.root] == t.level[t.root]
  {
    MergeFacts(t, x, y);
  }

  /** The number of values of the neighbour `d` child slots further on. */
  ghost function Beside<V>(t: Tree<V>, id: Id, d: int): nat {
    if id in t.nodes && t.nodes[id].parent in t.nodes
       && 0 <= t.nodes[id].position + d < |t.nodes[t.nodes[id].parent].kids|
       && t.nodes[t.nodes[id].parent].kids[t.nodes[id].position + d] in t.nodes
    then |t.nodes[t.nodes[t.nodes[id].parent].kids[t.nodes[id].position + d]].vals| else 0
  }

  /** The node and the neighbour at distance `d` fit into one, with the value between them. */
  ghost predicate FitsBeside<V>(cap: nat, t: Tree<V>, id: Id, d: int) {
    && id in t.nodes && t.nodes[id].parent in t.nodes
    && 0 <= t.nodes[id].position + d < |t.nodes[t.nodes[id].parent].kids|
    && Beside(t, id, d) + 1 + |t.nodes[id].vals| <= cap
  }

  /** Nothing done. */
  lemma {:induction false} Unbalanced<V>(cap: nat, t: Tree<V>, rightmost: Id, it: Iter)
    requires Sound(cap, t, rightmost, {it.node}) && it.node in t.nodes && it.node != t.root
    requires t.nodes[it.node].vals != []
    requires 0 <= it.position <= |t.nodes[it.node].vals|
    ensures Rebalanced(cap, t, it, t, rightmost, it, {})
  {
    NoSpare(cap, t, rightmost, it.node);
    assert Shape(t, it.node);
    var lv := t.level[it.node];
    forall id ensures LowerSame(t, t, lv, id) {
    }
  }

  // ----- a value of an internal node replaced -----

  lemma {:induction false} WeaveSet<V>(fs: seq<seq<V>>, vs: seq<V>, i: nat, w: V)
    requires |fs| == |vs| + 1 && i < |vs|
    ensures Off(fs, i) + |fs[i]| < |Weave(fs, vs)|
    ensures Weave(fs, vs[i := w]) == Weave(fs, vs)[Off(fs, i) + |fs[i]| := w]
    decreases |fs|
  {
    WeaveAt(fs, vs, i);
    if i == 0 {
      assert vs[0 := w][1..] == vs[1..];
      SetCons(fs[0], vs[0], Weave(fs[1..], vs[1..]), w);
    } else {
      assert vs[i := w][1..] == vs[1..][i - 1 := w];
      WeaveSet(fs[1..], vs[1..], i - 1, w);
      SetBehind(fs[0], vs[0], Weave(fs[1..], vs[1..]), Off(fs[1..], i - 1) + |fs[i]|, w);
    }
  }

  lemma {:induction false} SetCons<V>(a: seq<V>, v: V, b: seq<V>, w: V)
    ensures (a + ([v] + b))[|a| := w] == a + ([w] + b)
  {
  }

  lemma {:induction false} SetBehind<V>(a: seq<V>, v: V, b: seq<V>, i: nat, w: V)
    requires i < |b|
    ensures (a + ([v] + b))[|a| + 1 + i := w] == a + ([v] + b[i := w])
  {
  }

  lemma {:induction false} SpliceSet<V>(s: seq<V>, at: nat, f: seq<V>, i: nat, w: V)
    requires Holds(s, at, f) && i < |f|
    ensures at + i < |s| && Splice(s, at, |f|, f[i := w]) == s[at + i := w]
  {
    assert s == s[..at] + f + s[at + |f|..];
  }

  lemma {:induction false} InternalSet<V>(cap: nat, t: Tree<V>, rightmost: Id, x: Id, pos: nat, w: V)
    requires Sound(cap, t, rightmost, {}) && x in t.nodes && !t.nodes[x].leaf && pos < |t.nodes[x].vals|
    ensures CanSet(t, x, t.nodes[x].vals[pos := w]) && Rank(t, x, pos) < |Values(t)|
    ensures Sound(cap, SetVals(t, x, t.nodes[x].vals[pos := w]), rightmost, {})
    ensures Values(SetVals(t, x, t.nodes[x].vals[pos := w])) == Values(t)[Rank(t, x, pos) := w]
  {
    var vals := t.nodes[x].vals;
    var vs := vals[pos := w];
    assert Fits(cap, t, x);
    SetSound(cap, t, rightmost, {}, x, vs, {});
    SetValues(t, x, vs);
    SetOwn(t, x, vs);
    SubOfInternal(t, x);
    var fs := Subs(t, t.nodes[x].kids);
    WeaveSet(fs, vals, pos, w);
    InPlace(t, x);
    SpliceSet(Values(t), StartOf(t, x), Sub(t, x), Off(fs, pos) + |fs[pos]|, w);
  }

  /** A position in a leaf survives a step on the level of the leaf or a higher one. */
  lemma {:induction false} PlaceSurvives<V>(cap: nat, t: Tree<V>, it: Iter, u: Tree<V>, rightmost: Id, at: Iter,
                                            spare: set<Id>, leaf: Id)
    requires Rebalanced(cap, t, it, u, rightmost, at, spare) && leaf in t.nodes && leaf in t.level
    requires t.level[leaf] < t.level[it.node]
    ensures leaf in u.nodes && u.nodes[leaf].leaf == t.nodes[leaf].leaf && u.nodes[leaf].vals == t.nodes[leaf].vals
    ensures StartOf(u, leaf) == StartOf(t, leaf)
  {
    assert LowerSame(t, u, t.level[it.node], leaf);
  }

  /** One level up from a rebalanced node. */
  lemma {:induction false} StepUp<V>(cap: nat, u: Tree<V>, rightmost: Id, spare: set<Id>, at: Iter)
    requires Sound(cap, u, rightmost, spare) && at.node in u.nodes && at.node != u.root
    ensures u.nodes[at.node].parent in u.nodes
    ensures 0 <= u.nodes[at.node].position <= |u.nodes[u.nodes[at.node].parent].vals|
    ensures Depth(u, u.nodes[at.node].parent) + 1 == Depth(u, at.node)
    ensures u.level[u.nodes[at.node].parent] == u.level[at.node] + 1
  {
    ParentLinks(u, at.node);
    assert Shape(u, u.nodes[at.node].parent);
  }

  lemma {:induction false} ShrinkPlace<V>(cap: nat, t: Tree<V>, rightmost: Id, leaf: Id)
    requires Sound(cap, t, rightmost, {t.root}) && CanShrink(t) && leaf in t.nodes && t.nodes[leaf].leaf
    ensures Sound(cap, Shrink(t), rightmost, {}) && Values(Shrink(t)) == Values(t)
    ensures leaf in Shrink(t).nodes && Shrink(t).nodes[leaf].leaf && Shrink(t).nodes[leaf].vals == t.nodes[leaf].vals
    ensures StartOf(Shrink(t), leaf) == StartOf(t, leaf)
  {
    ShrinkSound(cap, t, rightmost, {t.root});
    ShrinkKeeps(t, leaf);
  }
}
