/** What the fields of a table mean: the control bytes as a cycle, the probe chain that makes
    an element reachable, and how each kind of write to the control bytes affects it. */
module TableModel {
  import opened Probing
  import opened Group
  import opened Capacity

  /** A hash seen as its two parts: `H1` selects the probe sequence, `H2` is stored in the control byte. */
  datatype HashCode = HashCode(h1: nat, h2: bv7)

  datatype Slot<K, V> = Slot(key: K, value: V)

  // ----- layout of the control bytes -----

  predicate Cloned(cap: nat, c: seq<Ctrl>, p: nat) {
    cap + 1 + p < |c| && c[cap + 1 + p] == c[p]
  }

  /** The sentinel, the cloned bytes after it, and in a small table the dummy empty bytes. */
  predicate Layout(w: nat, cap: nat, c: seq<Ctrl>) {
    && IsWidth(w)
    && (cap == 0 || (IsValidCapacity(cap) && |c| == cap + w + 1))
    && |c| >= cap + w
    && c[cap] == Sentinel
    && (forall p :: 0 <= p < cap ==> c[p] != Sentinel)
    && (forall p :: 0 <= p < cap && p < w - 1 ==> Cloned(cap, c, p))
    && (IsSmall(w, cap) ==> forall q :: 2 * cap + 1 <= q < cap + w ==> c[q] == Empty)
  }

  /** The index of the cloned byte: `((i - w) & cap) + 1 + ((w - 1) & cap)`. */
  function Mirror(w: nat, cap: nat, i: nat): nat
    requires IsWidth(w) && i < cap
  {
    Dist(cap, Wrap(cap, w), i) + 1 + Wrap(cap, w - 1)
  }

  function SetCtrl(w: nat, cap: nat, c: seq<Ctrl>, i: nat, h: Ctrl): seq<Ctrl>
    requires IsWidth(w) && i < cap && i < |c| && Mirror(w, cap, i) < |c|
  {
    c[i := h][Mirror(w, cap, i) := h]
  }

  lemma {:induction false} MirrorPlace(w: nat, cap: nat, i: nat)
    requires IsWidth(w) && IsValidCapacity(cap) && i < cap
    ensures Mirror(w, cap, i) == if i < w then cap + 1 + i else i
  {
    SmallCapacities(cap);
  }

  /** `c'` differs from `c` in the byte of slot `i` (and its clone) only. */
  ghost predicate Wrote(w: nat, cap: nat, c: seq<Ctrl>, c': seq<Ctrl>, i: nat, h: Ctrl) {
    && Layout(w, cap, c) && Layout(w, cap, c') && i < cap
    && c'[i] == h && forall p :: 0 <= p <= cap && p != i ==> c'[p] == c[p]
  }

  lemma {:induction false} SetCtrlLayout(w: nat, cap: nat, c: seq<Ctrl>, i: nat, h: Ctrl)
    requires Layout(w, cap, c) && i < cap && h != Sentinel
    ensures Mirror(w, cap, i) < |c| && Wrote(w, cap, c, SetCtrl(w, cap, c, i, h), i, h)
  {
    MirrorPlace(w, cap, i);
    var c' := SetCtrl(w, cap, c, i, h);
    forall p | 0 <= p < cap && p < w - 1
      ensures Cloned(cap, c', p)
    {
      assert Cloned(cap, c, p);
    }
  }

  /** A group load reads the cyclic control bytes: position `p` shows at its distance from the offset. */
  lemma {:induction false} LoadReads(w: nat, cap: nat, c: seq<Ctrl>, o: nat, p: nat)
    requires Layout(w, cap, c) && o <= cap && p <= cap && Dist(cap, o, p) < w
    ensures c[o + Dist(cap, o, p)] == c[p]
  {
    assert Cloned(cap, c, p) || p >= cap || p >= w - 1;
  }

  /** Conversely each loaded byte is a cyclic one, or a dummy after the clones of a small table. */
  lemma {:induction false} LoadedFrom(w: nat, cap: nat, c: seq<Ctrl>, o: nat, i: nat)
    requires Layout(w, cap, c) && o <= cap && i < w
    ensures IsSmall(w, cap) && o + i > 2 * cap ==> c[o + i] == Empty
    ensures !(IsSmall(w, cap) && o + i > 2 * cap) ==>
              c[o + i] == c[Wrap(cap, o + i)] && Dist(cap, o, Wrap(cap, o + i)) < w
    ensures !IsSmall(w, cap) ==> Dist(cap, o, Wrap(cap, o + i)) == i
  {
    assert Cloned(cap, c, Wrap(cap, o + i)) || o + i <= cap || (IsSmall(w, cap) && o + i > 2 * cap);
  }

  // ----- windows and probe chains -----

  predicate NoEmptyIn(w: nat, cap: nat, c: seq<Ctrl>, o: nat)
    requires o <= cap < |c|
  {
    forall p :: 0 <= p <= cap && Dist(cap, o, p) < w ==> !c[p].Empty?
  }

  /** Neither empty nor deleted anywhere in the window. */
  predicate BusyIn(w: nat, cap: nat, c: seq<Ctrl>, o: nat)
    requires o <= cap < |c|
  {
    forall p :: 0 <= p <= cap && Dist(cap, o, p) < w ==> !c[p].EmptyOrDeleted()
  }

  /** Slot `s` lies in the j-th window, and every earlier window has no empty byte. */
  ghost predicate ReachAt(w: nat, cap: nat, c: seq<Ctrl>, h1: nat, s: nat, j: nat)
    requires cap < |c|
  {
    && s <= cap
    && Dist(cap, ProbeOffset(h1, cap, w, j), s) < w
    && forall i :: 0 <= i < j ==> NoEmptyIn(w, cap, c, ProbeOffset(h1, cap, w, i))
  }

  /** The probe-chain invariant of one slot. */
  ghost predicate Reachable(w: nat, cap: nat, c: seq<Ctrl>, h1: nat, s: nat)
    requires cap < |c|
  {
    exists j: nat :: ReachAt(w, cap, c, h1, s, j)
  }

  /** As ReachAt, with every earlier window entirely full: what the in-place rehash establishes. */
  ghost predicate FirmAt(w: nat, cap: nat, c: seq<Ctrl>, h1: nat, s: nat, j: nat)
    requires cap < |c|
  {
    && s <= cap
    && Dist(cap, ProbeOffset(h1, cap, w, j), s) < w
    && forall i :: 0 <= i < j ==> BusyIn(w, cap, c, ProbeOffset(h1, cap, w, i))
  }

  ghost predicate Firm(w: nat, cap: nat, c: seq<Ctrl>, h1: nat, s: nat)
    requires cap < |c|
  {
    exists j: nat :: FirmAt(w, cap, c, h1, s, j)
  }

  lemma {:induction false} FirmReachable(w: nat, cap: nat, c: seq<Ctrl>, h1: nat, s: nat)
    requires cap < |c| && Firm(w, cap, c, h1, s)
    ensures Reachable(w, cap, c, h1, s)
  {
    var j: nat :| FirmAt(w, cap, c, h1, s, j);
    assert ReachAt(w, cap, c, h1, s, j);
  }

  /** Writes that create no empty byte keep every chain. */
  lemma {:induction false} ReachableKept(w: nat, cap: nat, c: seq<Ctrl>, c': seq<Ctrl>, h1: nat, s: nat)
    requires cap < |c| && cap < |c'| && Reachable(w, cap, c, h1, s)
    requires forall p :: 0 <= p <= cap && c'[p].Empty? ==> c[p].Empty?
    ensures Reachable(w, cap, c', h1, s)
  {
    var j: nat :| ReachAt(w, cap, c, h1, s, j);
    assert ReachAt(w, cap, c', h1, s, j);
  }

  /** Writes to bytes that are not full keep every firm chain. */
  lemma {:induction false} FirmKept(w: nat, cap: nat, c: seq<Ctrl>, c': seq<Ctrl>, h1: nat, s: nat)
    requires cap < |c| && cap < |c'| && Firm(w, cap, c, h1, s)
    requires forall p :: 0 <= p <= cap && c'[p].EmptyOrDeleted() ==> c[p].EmptyOrDeleted()
    ensures Firm(w, cap, c', h1, s)
  {
    var j: nat :| FirmAt(w, cap, c, h1, s, j);
    assert FirmAt(w, cap, c', h1, s, j);
  }

  /** Erasing to empty: the erased byte has an empty byte at most `w - 1` places after and before it,
      the two less than `w + 1` apart, so every window over it already held an empty byte. */
  lemma {:induction false} WindowHadEmpty(w: nat, cap: nat, c: seq<Ctrl>, o: nat, s: nat, after: nat, before: nat)
    requires !IsSmall(w, cap) && cap < |c| && o <= cap && s <= cap && Dist(cap, o, s) < w
    requires after + before < w && w <= cap + 1
    requires c[Wrap(cap, s + after)].Empty?
    requires c[Dist(cap, Wrap(cap, before + 1), s)].Empty?
    ensures !NoEmptyIn(w, cap, c, o)
  {
    var a, b := Wrap(cap, s + after), Dist(cap, Wrap(cap, before + 1), s);
    if Dist(cap, o, s) + after < w {
      assert Dist(cap, o, a) < w;
    } else {
      assert Dist(cap, o, b) < w;
    }
  }

  lemma {:induction false} ReachableAfterErase(w: nat, cap: nat, c: seq<Ctrl>, c': seq<Ctrl>, h1: nat, t: nat, s: nat,
                                               after: nat, before: nat)
    requires !IsSmall(w, cap) && w <= cap + 1 && cap < |c| && cap < |c'| && s <= cap
    requires Reachable(w, cap, c, h1, t)
    requires after + before < w && c[Wrap(cap, s + after)].Empty? && c[Dist(cap, Wrap(cap, before + 1), s)].Empty?
    requires forall p :: 0 <= p <= cap && p != s ==> c'[p] == c[p]
    ensures Reachable(w, cap, c', h1, t)
  {
    var j: nat :| ReachAt(w, cap, c, h1, t, j);
    forall i | 0 <= i < j
      ensures NoEmptyIn(w, cap, c', ProbeOffset(h1, cap, w, i))
    {
      var o := ProbeOffset(h1, cap, w, i);
      assert NoEmptyIn(w, cap, c, o);
      if Dist(cap, o, s) < w {
        WindowHadEmpty(w, cap, c, o, s, after, before);
        assert false;
      }
    }
    assert ReachAt(w, cap, c', h1, t, j);
  }

  /** In a small table the first window holds every slot. */
  lemma {:induction false} SmallReachable(w: nat, cap: nat, c: seq<Ctrl>, h1: nat, s: nat)
    requires cap < |c| && IsSmall(w, cap) && s <= cap
    ensures Reachable(w, cap, c, h1, s)
  {
    assert ReachAt(w, cap, c, h1, s, 0);
  }

  // ----- counting -----

  function CountFull(c: seq<Ctrl>, n: nat): (k: nat)
    requires n <= |c|
    ensures k <= n
  {
    if n == 0 then 0 else CountFull(c, n - 1) + if c[n - 1].Full? then 1 else 0
  }

  function CountDeleted(c: seq<Ctrl>, n: nat): (k: nat)
    requires n <= |c|
    ensures k <= n
  {
    if n == 0 then 0 else CountDeleted(c, n - 1) + if c[n - 1].Deleted? then 1 else 0
  }

  lemma {:induction false} CountsUpdate(c: seq<Ctrl>, c': seq<Ctrl>, n: nat, i: nat)
    requires n <= |c| && n <= |c'| && i < n && forall p :: 0 <= p < n && p != i ==> c'[p] == c[p]
    ensures CountFull(c', n) == CountFull(c, n) - (if c[i].Full? then 1 else 0) + (if c'[i].Full? then 1 else 0)
    ensures CountDeleted(c', n) == CountDeleted(c, n) - (if c[i].Deleted? then 1 else 0)
                                  + (if c'[i].Deleted? then 1 else 0)
  {
    if i < n - 1 {
      CountsUpdate(c, c', n - 1, i);
    } else {
      CountsSame(c, c', n - 1);
    }
  }

  lemma {:induction false} CountsSame(c: seq<Ctrl>, c': seq<Ctrl>, n: nat)
    requires n <= |c| && n <= |c'| && forall p :: 0 <= p < n ==> c'[p] == c[p]
    ensures CountFull(c', n) == CountFull(c, n) && CountDeleted(c', n) == CountDeleted(c, n)
  {
    if n == 0 {
    } else {
      CountsSame(c, c', n - 1);
    }
  }

  lemma {:induction false} SomeEmpty(c: seq<Ctrl>, n: nat) returns (p: nat)
    requires n <= |c| && CountFull(c, n) + CountDeleted(c, n) < n
    requires forall q :: 0 <= q < n ==> c[q] != Sentinel
    ensures p < n && c[p].Empty?
  {
    if c[n - 1].Empty? {
      p := n - 1;
    } else {
      p := SomeEmpty(c, n - 1);
    }
  }

  lemma {:induction false} SomeNotFull(c: seq<Ctrl>, n: nat) returns (p: nat)
    requires n <= |c| && CountFull(c, n) < n
    ensures p < n && !c[p].Full?
  {
    if !c[n - 1].Full? {
      p := n - 1;
    } else {
      p := SomeNotFull(c, n - 1);
    }
  }

  lemma {:induction false} FullCounted(c: seq<Ctrl>, n: nat, p: nat)
    requires p < n <= |c| && c[p].Full?
    ensures CountFull(c, n) > 0
  {
    if p == n - 1 {
    } else {
      FullCounted(c, n - 1, p);
    }
  }

  lemma {:induction false} NoneDeleted(c: seq<Ctrl>, n: nat)
    requires n <= |c|
    ensures CountDeleted(c, n) == 0 <==> forall p :: 0 <= p < n ==> !c[p].Deleted?
  {
    if n == 0 {
    } else {
      NoneDeleted(c, n - 1);
    }
  }

  lemma {:induction false} AllFull(c: seq<Ctrl>, n: nat)
    requires n <= |c| && CountFull(c, n) == n
    ensures forall p :: 0 <= p < n ==> c[p].Full?
  {
    if n == 0 {
    } else {
      AllFull(c, n - 1);
    }
  }

  // ----- contents -----

  /** A live slot holds an element. During the in-place rehash deleted marks a slot whose element waits. */
  predicate Live(c: Ctrl, rehashing: bool) {
    c.Full? || (rehashing && c.Deleted?)
  }

  ghost predicate KeyPlaced<K, V>(c: seq<Ctrl>, slots: seq<Slot<K, V>>, rehashing: bool,
                                  index: map<K, nat>, m: map<K, V>, k: K)
  {
    && k in index && k in m && index[k] < |slots| <= |c|
    && Live(c[index[k]], rehashing) && slots[index[k]] == Slot(k, m[k])
  }

  ghost predicate SlotIndexed<K, V>(c: seq<Ctrl>, slots: seq<Slot<K, V>>, rehashing: bool, index: map<K, nat>, p: nat)
    requires p < |slots| <= |c|
  {
    Live(c[p], rehashing) ==> slots[p].key in index && index[slots[p].key] == p
  }

  /** `index` and the slots name each other: each key of the map is in exactly one live slot. */
  ghost predicate Indexed<K, V>(cap: nat, c: seq<Ctrl>, slots: seq<Slot<K, V>>, rehashing: bool,
                                index: map<K, nat>, m: map<K, V>)
  {
    && |slots| == cap <= |c|
    && m.Keys == index.Keys
    && (forall k :: k in index ==> KeyPlaced(c, slots, rehashing, index, m, k))
    && (forall p :: 0 <= p < cap ==> SlotIndexed(c, slots, rehashing, index, p))
  }

  lemma {:induction false} IndexedInsert<K, V>(cap: nat, c: seq<Ctrl>, c': seq<Ctrl>, slots: seq<Slot<K, V>>,
                            index: map<K, nat>, m: map<K, V>, t: nat, k: K, v: V)
    requires Indexed(cap, c, slots, false, index, m) && cap <= |c'|
    requires k !in m && t < cap && !c[t].Full? && c'[t].Full?
    requires forall p :: 0 <= p < cap && p != t ==> c'[p] == c[p]
    ensures Indexed(cap, c', slots[t := Slot(k, v)], false, index[k := t], m[k := v])
  {
    var slots', index', m' := slots[t := Slot(k, v)], index[k := t], m[k := v];
    forall x | x in index'
      ensures KeyPlaced(c', slots', false, index', m', x)
    {
      assert KeyPlaced(c, slots, false, index, m, x) || x !in index;
    }
    forall p | 0 <= p < cap
      ensures SlotIndexed(c', slots', false, index', p)
    {
      assert SlotIndexed(c, slots, false, index, p);
    }
  }

  lemma {:induction false} IndexedErase<K, V>(cap: nat, c: seq<Ctrl>, c': seq<Ctrl>, slots: seq<Slot<K, V>>,
                           index: map<K, nat>, m: map<K, V>, s: nat)
    requires Indexed(cap, c, slots, false, index, m) && cap <= |c'|
    requires s < cap && c[s].Full? && !c'[s].Full?
    requires forall p :: 0 <= p < cap && p != s ==> c'[p] == c[p]
    ensures Indexed(cap, c', slots, false, index - {slots[s].key}, m - {slots[s].key})
  {
    assert SlotIndexed(c, slots, false, index, s);
    var slots', index', m' := slots, index - {slots[s].key}, m - {slots[s].key};
    forall k | k in index'
      ensures KeyPlaced(c', slots', false, index', m', k)
    {
      assert KeyPlaced(c, slots, false, index, m, k) || k !in index;
    }
    forall p | 0 <= p < cap
      ensures SlotIndexed(c', slots', false, index', p)
    {
      assert SlotIndexed(c, slots, false, index, p);
    }
  }

  ghost predicate OnChain<K, V>(w: nat, cap: nat, c: seq<Ctrl>, slots: seq<Slot<K, V>>, hash: K -> HashCode, p: nat)
    requires p < |slots| == cap < |c|
  {
    c[p].Full? ==> c[p].h2 == hash(slots[p].key).h2 && Reachable(w, cap, c, hash(slots[p].key).h1, p)
  }

  /** Each full byte shows `H2` of the key in its slot, and its slot is on the key's probe chain. */
  ghost predicate Chained<K, V>(w: nat, cap: nat, c: seq<Ctrl>, slots: seq<Slot<K, V>>, hash: K -> HashCode) {
    && |slots| == cap < |c|
    && forall p :: 0 <= p < cap ==> OnChain(w, cap, c, slots, hash, p)
  }

  /** The control bytes and slots represent the map `m`. */
  ghost predicate Represents<K, V>(w: nat, cap: nat, c: seq<Ctrl>, slots: seq<Slot<K, V>>, hash: K -> HashCode,
                                         index: map<K, nat>, m: map<K, V>)
  {
    && Layout(w, cap, c)
    && Indexed(cap, c, slots, false, index, m)
    && Chained(w, cap, c, slots, hash)
  }

  /** The load accounting: full, deleted and still insertable slots add up to the growth limit. */
  predicate Accounted(w: nat, cap: nat, c: seq<Ctrl>, size: nat, growthLeft: nat) {
    && cap <= |c|
    && size == CountFull(c, cap)
    && size + CountDeleted(c, cap) + growthLeft == CapacityToGrowth(w, cap)
    && (IsSmall(w, cap) ==> CountDeleted(c, cap) == 0)
  }

  /** Filling an empty or deleted slot on the chain of a new key. */
  lemma {:induction false} RepresentsInsert<K, V>(w: nat, cap: nat, c: seq<Ctrl>, c': seq<Ctrl>, slots: seq<Slot<K, V>>,
                               hash: K -> HashCode, index: map<K, nat>, m: map<K, V>, t: nat, k: K, v: V)
    requires Represents(w, cap, c, slots, hash, index, m) && Wrote(w, cap, c, c', t, Full(hash(k).h2))
    requires k !in m && c[t].EmptyOrDeleted() && Reachable(w, cap, c, hash(k).h1, t)
    ensures Represents(w, cap, c', slots[t := Slot(k, v)], hash, index[k := t], m[k := v])
  {
    var slots' := slots[t := Slot(k, v)];
    IndexedInsert(cap, c, c', slots, index, m, t, k, v);
    forall p | 0 <= p < cap
      ensures OnChain(w, cap, c', slots', hash, p)
    {
      assert OnChain(w, cap, c, slots, hash, p);
      if c'[p].Full? {
        ReachableKept(w, cap, c, c', hash(slots'[p].key).h1, p);
      }
    }
  }

  /** Clearing a full slot, to deleted or to empty, provided the remaining chains survive. */
  lemma {:induction false} RepresentsErase<K, V>(w: nat, cap: nat, c: seq<Ctrl>, c': seq<Ctrl>, slots: seq<Slot<K, V>>,
                              hash: K -> HashCode, index: map<K, nat>, m: map<K, V>, s: nat, mark: Ctrl)
    requires Represents(w, cap, c, slots, hash, index, m) && Wrote(w, cap, c, c', s, mark)
    requires c[s].Full? && mark.EmptyOrDeleted()
    requires forall h1: nat, t: nat :: t < cap && Reachable(w, cap, c, h1, t) ==> Reachable(w, cap, c', h1, t)
    ensures Represents(w, cap, c', slots, hash, index - {slots[s].key}, m - {slots[s].key})
  {
    IndexedErase(cap, c, c', slots, index, m, s);
    forall p | 0 <= p < cap
      ensures OnChain(w, cap, c', slots, hash, p)
    {
      assert OnChain(w, cap, c, slots, hash, p);
    }
  }

  // ----- searching -----

  /** How many windows a search may look at: one in a small table, one per group in a large one. */
  lemma {:induction false} ProbeBound(w: nat, cap: nat) returns (n: nat)
    requires IsWidth(w) && (cap == 0 || IsValidCapacity(cap))
    ensures n > 0 && (!IsSmall(w, cap) ==> IsPow2(n) && Times(w, n) == cap + 1)
  {
    if IsSmall(w, cap) {
      n := 1;
    } else {
      WidthIsPow2(w);
      n := GroupCount(cap, w);
    }
  }

  /** No full slot of the window holds `key`. */
  predicate KeyNotIn<K(==), V>(w: nat, cap: nat, c: seq<Ctrl>, slots: seq<Slot<K, V>>, o: nat, key: K)
    requires o <= cap < |c| && |slots| == cap
  {
    forall p :: 0 <= p < cap && Dist(cap, o, p) < w && c[p].Full? ==> slots[p].key != key
  }

  /** The control bytes a group load at `o` reads. */
  function Loaded(w: nat, cap: nat, c: seq<Ctrl>, o: nat): (g: seq<Ctrl>)
    requires Layout(w, cap, c) && o <= cap
    ensures |g| == w
  {
    c[o..o + w]
  }

  /** The slot of lane `i` of the group at `o` exists and holds another key. */
  predicate OtherKeyAt<K(==), V>(cap: nat, slots: seq<Slot<K, V>>, o: nat, i: nat, key: K) {
    Wrap(cap, o + i) < |slots| && slots[Wrap(cap, o + i)].key != key
  }

  predicate OtherKeys<K(==), V>(cap: nat, slots: seq<Slot<K, V>>, o: nat, lanes: seq<nat>, x: nat, key: K)
    requires x <= |lanes|
  {
    forall y :: 0 <= y < x ==> OtherKeyAt(cap, slots, o, lanes[y], key)
  }

  lemma {:induction false} OtherKeysStep<K, V>(cap: nat, slots: seq<Slot<K, V>>, o: nat, lanes: seq<nat>, x: nat,
                                               key: K)
    requires x < |lanes| && OtherKeys(cap, slots, o, lanes, x, key) && OtherKeyAt(cap, slots, o, lanes[x], key)
    ensures OtherKeys(cap, slots, o, lanes, x + 1, key)
  {
  }

  /** Comparing the lanes that `Match` reports settles the window. */
  lemma {:induction false} WindowMissed<K, V>(w: nat, cap: nat, c: seq<Ctrl>, slots: seq<Slot<K, V>>,
                                              hash: K -> HashCode,
                           o: nat, key: K, lanes: seq<nat>)
    requires Layout(w, cap, c) && Chained(w, cap, c, slots, hash) && o <= cap
    requires forall i :: 0 <= i < w && Loaded(w, cap, c, o)[i] == Full(hash(key).h2) ==> i in lanes
    requires OtherKeys(cap, slots, o, lanes, |lanes|, key)
    ensures KeyNotIn(w, cap, c, slots, o, key)
  {
    forall p | 0 <= p < cap && Dist(cap, o, p) < w && c[p].Full?
      ensures slots[p].key != key
    {
      var i := Dist(cap, o, p);
      LoadReads(w, cap, c, o, p);
      assert Loaded(w, cap, c, o)[i] == c[p] && OnChain(w, cap, c, slots, hash, p);
      assert Wrap(cap, o + i) == p;
    }
  }

  /** A full byte in a loaded group names a slot. */
  lemma {:induction false} FullLaneIsSlot(w: nat, cap: nat, c: seq<Ctrl>, o: nat, i: nat)
    requires Layout(w, cap, c) && o <= cap && i < w && Loaded(w, cap, c, o)[i].Full?
    ensures Wrap(cap, o + i) < cap && c[Wrap(cap, o + i)].Full? && Dist(cap, o, Wrap(cap, o + i)) < w
  {
    LoadedFrom(w, cap, c, o, i);
  }

  /** `MatchEmpty` of the group loaded at `o` finds something. */
  predicate HasEmpty(w: nat, cap: nat, c: seq<Ctrl>, o: nat)
    requires Layout(w, cap, c) && o <= cap
  {
    exists e :: 0 <= e < w && Loaded(w, cap, c, o)[e].Empty?
  }

  lemma {:induction false} GroupWithoutEmpty(w: nat, cap: nat, c: seq<Ctrl>, o: nat)
    requires Layout(w, cap, c) && o <= cap
    requires !HasEmpty(w, cap, c, o)
    ensures !IsSmall(w, cap) && NoEmptyIn(w, cap, c, o)
  {
    assert !IsSmall(w, cap) by {
      assert !Loaded(w, cap, c, o)[w - 1].Empty?;
      LoadedFrom(w, cap, c, o, w - 1);
      if cap > 0 {
        SmallCapacities(cap);
      }
    }
    forall p | 0 <= p <= cap && Dist(cap, o, p) < w
      ensures !c[p].Empty?
    {
      LoadReads(w, cap, c, o, p);
      assert Loaded(w, cap, c, o)[Dist(cap, o, p)] == c[p];
    }
  }

  /** The first `j` windows have no empty byte and do not hold `key`. */
  ghost predicate Searched<K, V>(w: nat, cap: nat, c: seq<Ctrl>, slots: seq<Slot<K, V>>, h1: nat, key: K, j: nat)
    requires cap < |c| && |slots| == cap
  {
    forall i :: 0 <= i < j ==>
      && NoEmptyIn(w, cap, c, ProbeOffset(h1, cap, w, i))
      && KeyNotIn(w, cap, c, slots, ProbeOffset(h1, cap, w, i), key)
  }

  lemma {:induction false} SearchedStep<K, V>(w: nat, cap: nat, c: seq<Ctrl>, slots: seq<Slot<K, V>>, h1: nat, key: K,
                                              j: nat)
    requires cap < |c| && |slots| == cap && Searched(w, cap, c, slots, h1, key, j)
    requires NoEmptyIn(w, cap, c, ProbeOffset(h1, cap, w, j))
    requires KeyNotIn(w, cap, c, slots, ProbeOffset(h1, cap, w, j), key)
    ensures Searched(w, cap, c, slots, h1, key, j + 1)
  {
  }

  /** A search that saw no empty byte in its j-th window either has further windows to look at, if there is an
      empty slot at all. */
  lemma {:induction false} SearchGoesOn<K, V>(w: nat, cap: nat, c: seq<Ctrl>, slots: seq<Slot<K, V>>, h1: nat, key: K,
                                              n: nat, j: nat)
    requires Layout(w, cap, c) && |slots| == cap && CountFull(c, cap) + CountDeleted(c, cap) < cap
    requires !IsSmall(w, cap) && IsPow2(n) && Times(w, n) == cap + 1
    requires Searched(w, cap, c, slots, h1, key, j)
    requires NoEmptyIn(w, cap, c, ProbeOffset(h1, cap, w, j))
    requires KeyNotIn(w, cap, c, slots, ProbeOffset(h1, cap, w, j), key)
    ensures Searched(w, cap, c, slots, h1, key, j + 1) && j + 1 < n
  {
    SearchedStep(w, cap, c, slots, h1, key, j);
    var p := SomeEmpty(c, cap);
    var i := WindowsCover(h1, cap, w, n, p);
    assert NoEmptyIn(w, cap, c, ProbeOffset(h1, cap, w, i)) || i > j;
  }

  /** If the search meets an empty byte in its j-th group, the window of a present key is not later. */
  lemma {:induction false} PresentSeen<K, V>(w: nat, cap: nat, c: seq<Ctrl>, slots: seq<Slot<K, V>>,
                                             hash: K -> HashCode,
                          index: map<K, nat>, m: map<K, V>, key: K, j: nat) returns (i: nat)
    requires Represents(w, cap, c, slots, hash, index, m) && key in m
    requires HasEmpty(w, cap, c, ProbeOffset(hash(key).h1, cap, w, j))
    ensures i <= j && !KeyNotIn(w, cap, c, slots, ProbeOffset(hash(key).h1, cap, w, i), key)
  {
    var h1, s := hash(key).h1, index[key];
    assert KeyPlaced(c, slots, false, index, m, key);
    assert OnChain(w, cap, c, slots, hash, s);
    if IsSmall(w, cap) {
      i := 0;
    } else {
      i :| ReachAt(w, cap, c, h1, s, i);
      var e :| 0 <= e < w && Loaded(w, cap, c, ProbeOffset(h1, cap, w, j))[e].Empty?;
      LoadedFrom(w, cap, c, ProbeOffset(h1, cap, w, j), e);
      assert NoEmptyIn(w, cap, c, ProbeOffset(h1, cap, w, j)) || j >= i;
    }
  }

  /** So the key is not in the table when none of the windows so far holds it. */
  lemma {:induction false} SearchEnds<K, V>(w: nat, cap: nat, c: seq<Ctrl>, slots: seq<Slot<K, V>>, hash: K -> HashCode,
                         index: map<K, nat>, m: map<K, V>, key: K, j: nat)
    requires Represents(w, cap, c, slots, hash, index, m)
    requires Searched(w, cap, c, slots, hash(key).h1, key, j)
    requires KeyNotIn(w, cap, c, slots, ProbeOffset(hash(key).h1, cap, w, j), key)
    requires HasEmpty(w, cap, c, ProbeOffset(hash(key).h1, cap, w, j))
    ensures key !in m
  {
    if key in m {
      var i := PresentSeen(w, cap, c, slots, hash, index, m, key, j);
    }
  }

  // ----- finding room -----

  ghost predicate AllBusy(w: nat, cap: nat, c: seq<Ctrl>, h1: nat, j: nat)
    requires cap < |c|
  {
    forall i :: 0 <= i < j ==> BusyIn(w, cap, c, ProbeOffset(h1, cap, w, i))
  }

  /** No free byte in the window comes before `t`. */
  predicate FirstIn(cap: nat, c: seq<Ctrl>, o: nat, t: nat)
    requires o <= cap < |c| && t <= cap
  {
    forall p :: 0 <= p <= cap && Dist(cap, o, p) < Dist(cap, o, t) ==> !c[p].EmptyOrDeleted()
  }

  /** Slot `t` is the first free one of the j-th window, and no earlier window has one. */
  ghost predicate TargetAt(w: nat, cap: nat, c: seq<Ctrl>, h1: nat, t: nat, j: nat) {
    && t < cap < |c| && c[t].EmptyOrDeleted() && FirmAt(w, cap, c, h1, t, j)
    && FirstIn(cap, c, ProbeOffset(h1, cap, w, j), t)
  }

  /** The first free slot of the probe sequence. */
  ghost predicate IsTarget(w: nat, cap: nat, c: seq<Ctrl>, h1: nat, t: nat) {
    exists j: nat :: TargetAt(w, cap, c, h1, t, j)
  }

  lemma {:induction false} TargetEarlier(w: nat, cap: nat, c: seq<Ctrl>, h1: nat, t: nat, j: nat, u: nat, k: nat)
    requires TargetAt(w, cap, c, h1, t, j) && TargetAt(w, cap, c, h1, u, k)
    ensures j <= k
  {
  }

  /** There is only one. */
  lemma {:induction false} TargetUnique(w: nat, cap: nat, c: seq<Ctrl>, h1: nat, t: nat, j: nat, u: nat)
    requires TargetAt(w, cap, c, h1, t, j) && IsTarget(w, cap, c, h1, u)
    ensures u == t
  {
    var k: nat :| TargetAt(w, cap, c, h1, u, k);
    TargetEarlier(w, cap, c, h1, t, j, u, k);
    TargetEarlier(w, cap, c, h1, u, k, t, j);
    var o := ProbeOffset(h1, cap, w, j);
    assert Dist(cap, o, t) == Dist(cap, o, u);
  }

  lemma {:induction false} FullNoTarget(w: nat, cap: nat, c: seq<Ctrl>, h1: nat, t: nat)
    requires cap < |c| && CountFull(c, cap) == cap
    ensures !IsTarget(w, cap, c, h1, t)
  {
    AllFull(c, cap);
  }

  lemma {:induction false} AllBusyStep(w: nat, cap: nat, c: seq<Ctrl>, h1: nat, n: nat, j: nat)
    requires Layout(w, cap, c) && !IsSmall(w, cap) && IsPow2(n) && Times(w, n) == cap + 1
    requires CountFull(c, cap) < cap
    requires AllBusy(w, cap, c, h1, j) && BusyIn(w, cap, c, ProbeOffset(h1, cap, w, j))
    ensures AllBusy(w, cap, c, h1, j + 1) && j + 1 < n
  {
    var p := SomeNotFull(c, cap);
    var i := WindowsCover(h1, cap, w, n, p);
    assert BusyIn(w, cap, c, ProbeOffset(h1, cap, w, i)) || i > j;
  }

  lemma {:induction false} GroupBusy(w: nat, cap: nat, c: seq<Ctrl>, o: nat)
    requires Layout(w, cap, c) && o <= cap
    requires forall i :: 0 <= i < w ==> !Loaded(w, cap, c, o)[i].EmptyOrDeleted()
    ensures !IsSmall(w, cap) && BusyIn(w, cap, c, o)
  {
    assert !HasEmpty(w, cap, c, o);
    GroupWithoutEmpty(w, cap, c, o);
    forall p | 0 <= p <= cap && Dist(cap, o, p) < w
      ensures !c[p].EmptyOrDeleted()
    {
      LoadReads(w, cap, c, o, p);
      assert Loaded(w, cap, c, o)[Dist(cap, o, p)] == c[p];
    }
  }

  /** The first free lane of a group is a free slot; only in a full small table is it a dummy,
      and then it names the place of the sentinel. */
  lemma {:induction false} FreeLane(w: nat, cap: nat, c: seq<Ctrl>, o: nat, e: nat)
    requires Layout(w, cap, c) && o <= cap && e < w && Loaded(w, cap, c, o)[e].EmptyOrDeleted()
    requires forall i :: 0 <= i < e ==> !Loaded(w, cap, c, o)[i].EmptyOrDeleted()
    ensures Wrap(cap, o + e) < cap ==>
              c[Wrap(cap, o + e)].EmptyOrDeleted() && Dist(cap, o, Wrap(cap, o + e)) < w && CountFull(c, cap) < cap
    ensures Wrap(cap, o + e) == cap ==> IsSmall(w, cap) && CountFull(c, cap) == cap
  {
    LoadedFrom(w, cap, c, o, e);
    if IsSmall(w, cap) && o + e > 2 * cap {
      forall p | 0 <= p < cap
        ensures !c[p].EmptyOrDeleted()
      {
        LoadReads(w, cap, c, o, p);
        assert Loaded(w, cap, c, o)[Dist(cap, o, p)] == c[p];
      }
      if cap > 0 {
        SmallCapacities(cap);
      }
      assert Loaded(w, cap, c, o)[2 * cap + 1 - o].Empty?;
      AllFullCount(c, cap);
    } else {
      NotAllFull(c, cap, Wrap(cap, o + e));
    }
  }

  /** It is the first free slot from the offset on. */
  lemma {:induction false} FreeLaneFirst(w: nat, cap: nat, c: seq<Ctrl>, o: nat, e: nat)
    requires Layout(w, cap, c) && o <= cap && e < w
    requires forall i :: 0 <= i < e ==> !Loaded(w, cap, c, o)[i].EmptyOrDeleted()
    ensures FirstIn(cap, c, o, Wrap(cap, o + e))
  {
    WrapDist(cap, o, e);
    forall p | 0 <= p <= cap && Dist(cap, o, p) < Dist(cap, o, Wrap(cap, o + e)) ensures !c[p].EmptyOrDeleted() {
      LoadReads(w, cap, c, o, p);
      assert Loaded(w, cap, c, o)[Dist(cap, o, p)] == c[p];
    }
  }

  lemma {:induction false} WrapDist(cap: nat, o: nat, e: nat)
    requires o <= cap
    ensures Dist(cap, o, Wrap(cap, o + e)) <= e
    decreases e
  {
    if o + e <= cap {
    } else if e <= cap {
      assert Wrap(cap, o + e) == o + e - (cap + 1);
    } else {
      WrapDist(cap, o, e - (cap + 1));
    }
  }

  lemma {:induction false} AllFullCount(c: seq<Ctrl>, n: nat)
    requires n <= |c| && forall p :: 0 <= p < n ==> c[p].Full?
    ensures CountFull(c, n) == n
  {
    if n == 0 {
    } else {
      AllFullCount(c, n - 1);
    }
  }

  lemma {:induction false} NotAllFull(c: seq<Ctrl>, n: nat, p: nat)
    requires p < n <= |c| && !c[p].Full?
    ensures CountFull(c, n) < n
  {
    if p == n - 1 {
    } else {
      NotAllFull(c, n - 1, p);
    }
  }

  // ----- erasing -----

  /** What `erase_meta_only` finds out about the non-empty run around slot `s`. */
  lemma {:induction false} ErasedRun(w: nat, cap: nat, c: seq<Ctrl>, s: nat, before: nat, after: nat, prior: nat)
    requires Layout(w, cap, c) && !IsSmall(w, cap) && s < cap && before == Dist(cap, Wrap(cap, w), s)
    requires after < w && Loaded(w, cap, c, s)[after].Empty?
    requires prior < w && Loaded(w, cap, c, before)[w - 1 - prior].Empty?
    ensures c[Wrap(cap, s + after)].Empty? && c[Dist(cap, Wrap(cap, prior + 1), s)].Empty?
  {
    LoadedFrom(w, cap, c, s, after);
    LoadedFrom(w, cap, c, before, w - 1 - prior);
    BackFromGroup(cap, w, s, prior);
  }

  /** Going `w` places back and `w - 1 - prior` forward is going `prior + 1` back. */
  lemma {:induction false} BackFromGroup(cap: nat, w: nat, s: nat, prior: nat)
    requires prior < w <= cap + 1 && s <= cap
    ensures Wrap(cap, Dist(cap, Wrap(cap, w), s) + (w - 1 - prior)) == Dist(cap, Wrap(cap, prior + 1), s)
  {
  }

  /** A small table never needs a deleted mark. */
  lemma {:induction false} ErasedRunSmall(w: nat, cap: nat, c: seq<Ctrl>, s: nat, before: nat)
    requires Layout(w, cap, c) && IsSmall(w, cap) && s < cap && before == Dist(cap, Wrap(cap, w), s)
    ensures Loaded(w, cap, c, before)[w - 1].Empty? && HasEmpty(w, cap, c, s)
  {
    SmallCapacities(cap);
    assert Loaded(w, cap, c, s)[w - 1].Empty?;
  }

  lemma {:induction false} ErasedChains(w: nat, cap: nat, c: seq<Ctrl>, c': seq<Ctrl>, s: nat, mark: Ctrl, after: nat,
                                        prior: nat)
    requires Wrote(w, cap, c, c', s, mark) && mark.EmptyOrDeleted()
    requires mark.Empty? && !IsSmall(w, cap) ==>
               after + prior < w && c[Wrap(cap, s + after)].Empty? && c[Dist(cap, Wrap(cap, prior + 1), s)].Empty?
    ensures forall h1: nat, t: nat :: t < cap && Reachable(w, cap, c, h1, t) ==> Reachable(w, cap, c', h1, t)
  {
    forall h1: nat, t: nat | t < cap && Reachable(w, cap, c, h1, t)
      ensures Reachable(w, cap, c', h1, t)
    {
      if IsSmall(w, cap) {
        SmallReachable(w, cap, c', h1, t);
      } else if mark.Empty? {
        ReachableAfterErase(w, cap, c, c', h1, t, s, after, prior);
      } else {
        ReachableKept(w, cap, c, c', h1, t);
      }
    }
  }

  /** Empty bytes `after` places behind and `prior + 1` places before slot `s`, less than a group apart. */
  ghost predicate EmptyAround(w: nat, cap: nat, c: seq<Ctrl>, s: nat, after: nat, prior: nat)
    requires s <= cap < |c|
  {
    after + prior < w && EmptyAfter(cap, c, s, after) && EmptyBefore(cap, c, s, prior)
  }

  predicate EmptyAfter(cap: nat, c: seq<Ctrl>, s: nat, after: nat)
    requires cap < |c|
  {
    c[Wrap(cap, s + after)].Empty?
  }

  predicate EmptyBefore(cap: nat, c: seq<Ctrl>, s: nat, prior: nat)
    requires s <= cap < |c|
  {
    c[Dist(cap, Wrap(cap, prior + 1), s)].Empty?
  }

  /** The non-empty run around slot `s` is shorter than a group (and always counts as such in a small table). */
  ghost predicate ShortRun(w: nat, cap: nat, c: seq<Ctrl>, s: nat)
    requires s <= cap < |c|
  {
    IsSmall(w, cap) || exists after: nat, prior: nat :: EmptyAround(w, cap, c, s, after, prior)
  }

  predicate NoneEmpty(g: seq<Ctrl>, from: int, to: int) {
    0 <= from && to <= |g| && forall i :: from <= i < to ==> !g[i].Empty?
  }

  lemma {:induction false} RunMeasured(w: nat, cap: nat, c: seq<Ctrl>, s: nat, before: nat, after: nat, prior: nat)
    requires Layout(w, cap, c) && !IsSmall(w, cap) && s < cap && before == Dist(cap, Wrap(cap, w), s)
    requires after <= w && (after < w ==> Loaded(w, cap, c, s)[after].Empty?)
    requires NoneEmpty(Loaded(w, cap, c, s), 0, after)
    requires prior <= w && (prior < w ==> Loaded(w, cap, c, before)[w - 1 - prior].Empty?)
    requires NoneEmpty(Loaded(w, cap, c, before), w - prior, w)
    ensures ShortRun(w, cap, c, s) <==> after + prior < w
  {
    if after + prior < w {
      ErasedRun(w, cap, c, s, before, after, prior);
      assert EmptyAround(w, cap, c, s, after, prior);
    }
    forall a: nat, b: nat | EmptyAround(w, cap, c, s, a, b)
      ensures after <= a && prior <= b
    {
      EmptyAfterRun(w, cap, c, s, after, a);
      EmptyBeforeRun(w, cap, c, s, before, prior, b);
    }
  }

  /** What `erase_meta_only` computes from the two groups around the slot. */
  lemma {:induction false} RunDecides(w: nat, cap: nat, c: seq<Ctrl>, s: nat, before: nat, after: nat, prior: nat)
    requires Layout(w, cap, c) && s < cap && before == Dist(cap, Wrap(cap, w), s)
    requires after <= w && (after < w ==> Loaded(w, cap, c, s)[after].Empty?)
    requires NoneEmpty(Loaded(w, cap, c, s), 0, after)
    requires prior <= w && (prior < w ==> Loaded(w, cap, c, before)[w - 1 - prior].Empty?)
    requires NoneEmpty(Loaded(w, cap, c, before), w - prior, w)
    ensures ShortRun(w, cap, c, s) <==> after < w && prior < w && after + prior < w
  {
    if IsSmall(w, cap) {
      ErasedRunSmall(w, cap, c, s, before);
    } else {
      RunMeasured(w, cap, c, s, before, after, prior);
    }
  }

  lemma {:induction false} EmptyAfterRun(w: nat, cap: nat, c: seq<Ctrl>, s: nat, after: nat, a: nat)
    requires Layout(w, cap, c) && !IsSmall(w, cap) && s < cap && after <= w
    requires forall i :: 0 <= i < after ==> !Loaded(w, cap, c, s)[i].Empty?
    requires a < w && EmptyAfter(cap, c, s, a)
    ensures after <= a
  {
    LoadedFrom(w, cap, c, s, a);
    assert Loaded(w, cap, c, s)[a].Empty?;
  }

  lemma {:induction false} EmptyBeforeRun(w: nat, cap: nat, c: seq<Ctrl>, s: nat, before: nat, prior: nat, b: nat)
    requires Layout(w, cap, c) && !IsSmall(w, cap) && s < cap && before == Dist(cap, Wrap(cap, w), s) && prior <= w
    requires forall i :: w - prior <= i < w ==> !Loaded(w, cap, c, before)[i].Empty?
    requires b < w && EmptyBefore(cap, c, s, b)
    ensures prior <= b
  {
    BackFromGroup(cap, w, s, b);
    LoadedFrom(w, cap, c, before, w - 1 - b);
    assert Loaded(w, cap, c, before)[w - 1 - b].Empty?;
  }

  /** The run around a full slot is short exactly when every window over the slot holds an empty byte,
      so that no probe sequence can have passed over it. */
  lemma {:induction false} ShortRunMeaning(w: nat, cap: nat, c: seq<Ctrl>, s: nat)
    requires Layout(w, cap, c) && !IsSmall(w, cap) && s < cap && !c[s].Empty?
    ensures ShortRun(w, cap, c, s)
            <==> forall o :: 0 <= o <= cap && Dist(cap, o, s) < w ==> !NoEmptyIn(w, cap, c, o)
  {
    if ShortRun(w, cap, c, s) {
      var after: nat, prior: nat :| EmptyAround(w, cap, c, s, after, prior);
      forall o | 0 <= o <= cap && Dist(cap, o, s) < w
        ensures !NoEmptyIn(w, cap, c, o)
      {
        WindowHadEmpty(w, cap, c, o, s, after, prior);
      }
    } else {
      var o := LongRunWindow(w, cap, c, s, w - 1);
    }
  }

  /** With a single empty slot in a table of more than one group, the run around every other slot is long. */
  lemma {:induction false} SingleEmpty(w: nat, cap: nat, c: seq<Ctrl>, s: nat)
    requires Layout(w, cap, c) && w <= cap && s < cap && c[s].Full? && CountFull(c, cap) + 1 >= cap
    ensures !ShortRun(w, cap, c, s)
  {
    forall after: nat, prior: nat ensures !EmptyAround(w, cap, c, s, after, prior) {
      if EmptyAround(w, cap, c, s, after, prior) {
        var p, q := Wrap(cap, s + after), Dist(cap, Wrap(cap, prior + 1), s);
        if p != q {
          TwoNotFull(c, cap, p, q);
        }
      }
    }
  }

  lemma {:induction false} TwoNotFull(c: seq<Ctrl>, n: nat, p: nat, q: nat)
    requires n <= |c| && p < n && q < n && p != q && !c[p].Full? && !c[q].Full?
    ensures CountFull(c, n) + 2 <= n
  {
    if p == n - 1 {
      NotAllFull(c, n - 1, q);
    } else if q == n - 1 {
      NotAllFull(c, n - 1, p);
    } else {
      TwoNotFull(c, n - 1, p, q);
    }
  }

  /** In a long run some window over the slot has no empty byte: walk back from the slot while possible. */
  lemma {:induction false} LongRunWindow(w: nat, cap: nat, c: seq<Ctrl>, s: nat, back: nat) returns (o: nat)
    requires Layout(w, cap, c) && !IsSmall(w, cap) && s < cap && !c[s].Empty? && !ShortRun(w, cap, c, s) && back < w
    requires forall a: nat :: 0 < a < w - back ==> !EmptyAfter(cap, c, s, a)
    ensures o <= cap && Dist(cap, o, s) < w && NoEmptyIn(w, cap, c, o)
    decreases back
  {
    if exists b: nat :: b < back && EmptyBefore(cap, c, s, b) {
      var b: nat :| b < back && EmptyBefore(cap, c, s, b);
      forall a: nat | 0 < a < w - b
        ensures !EmptyAfter(cap, c, s, a)
      {
        assert !EmptyAround(w, cap, c, s, a, b);
      }
      o := LongRunWindow(w, cap, c, s, b);
    } else {
      o := Dist(cap, Wrap(cap, back), s);
      forall p | 0 <= p <= cap && Dist(cap, o, p) < w
        ensures !c[p].Empty?
      {
        var d := Dist(cap, o, p);
        WindowPlaces(cap, w, s, back, p);
        assert d < back ==> !EmptyBefore(cap, c, s, back - 1 - d);
        assert d > back ==> !EmptyAfter(cap, c, s, d - back);
      }
    }
  }

  lemma {:induction false} WindowPlaces(cap: nat, w: nat, s: nat, back: nat, p: nat)
    requires back < w <= cap + 1 && s <= cap && p <= cap
    ensures var d := Dist(cap, Dist(cap, Wrap(cap, back), s), p);
            && (d < back ==> p == Dist(cap, Wrap(cap, back - d), s))
            && (d == back ==> p == s)
            && (back < d < w ==> p == Wrap(cap, s + (d - back)))
  {
  }

  lemma {:induction false} EraseKeeps<K, V>(w: nat, cap: nat, c: seq<Ctrl>, c': seq<Ctrl>, slots: seq<Slot<K, V>>,
                                            hash: K -> HashCode,
                         index: map<K, nat>, m: map<K, V>, s: nat, wasNeverFull: bool, size: nat, growthLeft: nat)
    requires Represents(w, cap, c, slots, hash, index, m) && Accounted(w, cap, c, size, growthLeft)
    requires s < cap && c[s].Full? && Wrote(w, cap, c, c', s, if wasNeverFull then Empty else Deleted)
    requires wasNeverFull <==> ShortRun(w, cap, c, s)
    ensures Represents(w, cap, c', slots, hash, index - {slots[s].key}, m - {slots[s].key})
    ensures slots[s].key in m && size > 0 && Accounted(w, cap, c', size - 1, growthLeft + if wasNeverFull then 1 else 0)
  {
    assert SlotIndexed(c, slots, false, index, s);
    FullCounted(c, cap, s);
    var mark := if wasNeverFull then Empty else Deleted;
    var after: nat, prior: nat := 0, 0;
    if wasNeverFull && !IsSmall(w, cap) {
      after, prior :| EmptyAround(w, cap, c, s, after, prior);
    }
    ErasedChains(w, cap, c, c', s, mark, after, prior);
    RepresentsErase(w, cap, c, c', slots, hash, index, m, s, mark);
    CountsUpdate(c, c', cap, s);
  }

  // ----- the in-place rehash -----

  /** Full slots are settled; deleted marks a slot whose element still waits. */
  ghost predicate Rehashing<K, V>(w: nat, cap: nat, c: seq<Ctrl>, slots: seq<Slot<K, V>>, hash: K -> HashCode,
                                  index: map<K, nat>, m: map<K, V>)
  {
    && Layout(w, cap, c)
    && Indexed(cap, c, slots, true, index, m)
    && forall p :: 0 <= p < cap ==> Settled(w, cap, c, slots, hash, p)
  }

  ghost predicate Settled<K, V>(w: nat, cap: nat, c: seq<Ctrl>, slots: seq<Slot<K, V>>, hash: K -> HashCode, p: nat)
    requires p < |slots| == cap < |c|
  {
    c[p].Full? ==> c[p].h2 == hash(slots[p].key).h2 && Firm(w, cap, c, hash(slots[p].key).h1, p)
  }

  lemma {:induction false} RehashBegins<K, V>(w: nat, cap: nat, c: seq<Ctrl>, c': seq<Ctrl>, slots: seq<Slot<K, V>>,
                                              hash: K -> HashCode,
                           index: map<K, nat>, m: map<K, V>)
    requires Represents(w, cap, c, slots, hash, index, m) && Layout(w, cap, c')
    requires forall p :: 0 <= p < cap ==> c'[p] == Converted(c[p])
    ensures Rehashing(w, cap, c', slots, hash, index, m)
    ensures CountFull(c', cap) == 0 && CountDeleted(c', cap) == CountFull(c, cap)
  {
    ConvertedCounts(c, c', cap);
    forall k | k in index
      ensures KeyPlaced(c', slots, true, index, m, k)
    {
      assert KeyPlaced(c, slots, false, index, m, k);
    }
    forall p | 0 <= p < cap
      ensures SlotIndexed(c', slots, true, index, p)
    {
      assert SlotIndexed(c, slots, false, index, p);
    }
  }

  lemma {:induction false} ConvertedCounts(c: seq<Ctrl>, c': seq<Ctrl>, n: nat)
    requires n <= |c| && n <= |c'| && forall p :: 0 <= p < n ==> c'[p] == Converted(c[p])
    ensures CountFull(c', n) == 0 && CountDeleted(c', n) == CountFull(c, n)
  {
    if n == 0 {
    } else {
      ConvertedCounts(c, c', n - 1);
    }
  }

  lemma {:induction false} RehashEnds<K, V>(w: nat, cap: nat, c: seq<Ctrl>, slots: seq<Slot<K, V>>, hash: K -> HashCode,
                         index: map<K, nat>, m: map<K, V>)
    requires Rehashing(w, cap, c, slots, hash, index, m)
    requires forall p :: 0 <= p < cap ==> !c[p].Deleted?
    ensures Represents(w, cap, c, slots, hash, index, m) && CountDeleted(c, cap) == 0
  {
    NoneDeleted(c, cap);
    forall k | k in index
      ensures KeyPlaced(c, slots, false, index, m, k)
    {
      assert KeyPlaced(c, slots, true, index, m, k);
    }
    forall p | 0 <= p < cap
      ensures SlotIndexed(c, slots, false, index, p) && OnChain(w, cap, c, slots, hash, p)
    {
      assert SlotIndexed(c, slots, true, index, p) && Settled(w, cap, c, slots, hash, p);
      if c[p].Full? {
        FirmReachable(w, cap, c, hash(slots[p].key).h1, p);
      }
    }
  }

  /** Settled slots stay settled when a byte that was not full changes. */
  lemma {:induction false} SettledKept<K, V>(w: nat, cap: nat, c: seq<Ctrl>, c': seq<Ctrl>, slots: seq<Slot<K, V>>,
                                             slots': seq<Slot<K, V>>,
                          hash: K -> HashCode, index: map<K, nat>, m: map<K, V>, p: nat)
    requires Rehashing(w, cap, c, slots, hash, index, m) && cap < |c'| && |slots'| == cap
    requires forall q :: 0 <= q <= cap && c'[q].EmptyOrDeleted() ==> c[q].EmptyOrDeleted()
    requires p < cap && c'[p] == c[p] && (c[p].Full? ==> slots'[p] == slots[p])
    ensures Settled(w, cap, c', slots', hash, p)
  {
    assert Settled(w, cap, c, slots, hash, p);
    if c[p].Full? {
      FirmKept(w, cap, c, c', hash(slots[p].key).h1, p);
    }
  }

  /** The element stays in its slot, whose window is as early as any free one. */
  lemma {:induction false} RehashStay<K, V>(w: nat, cap: nat, c: seq<Ctrl>, c': seq<Ctrl>, slots: seq<Slot<K, V>>,
                                            hash: K -> HashCode,
                         index: map<K, nat>, m: map<K, V>, i: nat, t: nat, j: nat)
    requires Rehashing(w, cap, c, slots, hash, index, m) && !IsSmall(w, cap) && i < cap && c[i].Deleted?
    requires t < cap && FirmAt(w, cap, c, hash(slots[i].key).h1, t, j)
    requires ProbeIndex(hash(slots[i].key).h1, cap, w, t) == ProbeIndex(hash(slots[i].key).h1, cap, w, i)
    requires Wrote(w, cap, c, c', i, Full(hash(slots[i].key).h2))
    ensures Rehashing(w, cap, c', slots, hash, index, m)
  {
    var h1 := hash(slots[i].key).h1;
    var n := ProbeBound(w, cap);
    SameProbeIndex(h1, cap, w, n, j, t, i);
    assert FirmAt(w, cap, c, h1, i, j);
    FirmKept(w, cap, c, c', h1, i);
    forall p | 0 <= p < cap
      ensures Settled(w, cap, c', slots, hash, p) && SlotIndexed(c', slots, true, index, p)
    {
      if p != i {
        SettledKept(w, cap, c, c', slots, slots, hash, index, m, p);
      }
      assert SlotIndexed(c, slots, true, index, p);
    }
    forall k | k in index
      ensures KeyPlaced(c', slots, true, index, m, k)
    {
      assert KeyPlaced(c, slots, true, index, m, k);
    }
  }

  /** The element moves to an empty slot. */
  lemma {:induction false} RehashMove<K, V>(w: nat, cap: nat, c: seq<Ctrl>, c1: seq<Ctrl>, c2: seq<Ctrl>,
                                            slots: seq<Slot<K, V>>,
                         hash: K -> HashCode, index: map<K, nat>, m: map<K, V>, i: nat, t: nat, j: nat)
    requires Rehashing(w, cap, c, slots, hash, index, m) && i < cap && c[i].Deleted?
    requires t < cap && c[t].Empty? && FirmAt(w, cap, c, hash(slots[i].key).h1, t, j)
    requires Wrote(w, cap, c, c1, t, Full(hash(slots[i].key).h2)) && Wrote(w, cap, c1, c2, i, Empty)
    ensures Rehashing(w, cap, c2, slots[t := slots[i]], hash, index[slots[i].key := t], m)
  {
    var h1, slots' := hash(slots[i].key).h1, slots[t := slots[i]];
    assert Firm(w, cap, c, h1, t);
    FirmKept(w, cap, c, c2, h1, t);
    forall p | 0 <= p < cap
      ensures Settled(w, cap, c2, slots', hash, p)
    {
      if p != t && p != i {
        SettledKept(w, cap, c, c2, slots, slots', hash, index, m, p);
      }
    }
    IndexedMove(cap, c, c2, slots, index, m, i, t);
  }

  lemma {:induction false} IndexedMove<K, V>(cap: nat, c: seq<Ctrl>, c': seq<Ctrl>, slots: seq<Slot<K, V>>,
                          index: map<K, nat>, m: map<K, V>, i: nat, t: nat)
    requires Indexed(cap, c, slots, true, index, m) && cap <= |c'|
    requires i < cap && t < cap && c[i].Deleted? && c[t].Empty? && c'[i].Empty? && c'[t].Full?
    requires forall p :: 0 <= p < cap && p != i && p != t ==> c'[p] == c[p]
    ensures Indexed(cap, c', slots[t := slots[i]], true, index[slots[i].key := t], m)
  {
    assert SlotIndexed(c, slots, true, index, i);
    assert KeyPlaced(c, slots, true, index, m, slots[i].key);
    var slots', index', m' := slots[t := slots[i]], index[slots[i].key := t], m;
    forall k | k in index'
      ensures KeyPlaced(c', slots', true, index', m', k)
    {
      assert KeyPlaced(c, slots, true, index, m, k) || k !in index;
    }
    forall p | 0 <= p < cap
      ensures SlotIndexed(c', slots', true, index', p)
    {
      assert SlotIndexed(c, slots, true, index, p);
    }
  }

  /** The element takes the place of a waiting one, which then waits in its old slot. */
  lemma {:induction false} RehashSwap<K, V>(w: nat, cap: nat, c: seq<Ctrl>, c': seq<Ctrl>, slots: seq<Slot<K, V>>,
                         hash: K -> HashCode, index: map<K, nat>, m: map<K, V>, i: nat, t: nat, j: nat)
    requires Rehashing(w, cap, c, slots, hash, index, m) && i < cap && c[i].Deleted?
    requires t < cap && t != i && c[t].Deleted? && FirmAt(w, cap, c, hash(slots[i].key).h1, t, j)
    requires Wrote(w, cap, c, c', t, Full(hash(slots[i].key).h2))
    ensures Rehashing(w, cap, c', slots[t := slots[i]][i := slots[t]], hash,
                      index[slots[i].key := t][slots[t].key := i], m)
  {
    var h1, slots' := hash(slots[i].key).h1, slots[t := slots[i]][i := slots[t]];
    assert Firm(w, cap, c, h1, t);
    FirmKept(w, cap, c, c', h1, t);
    forall p | 0 <= p < cap
      ensures Settled(w, cap, c', slots', hash, p)
    {
      if p != t {
        SettledKept(w, cap, c, c', slots, slots', hash, index, m, p);
      }
    }
    IndexedSwap(cap, c, c', slots, index, m, i, t);
  }

  lemma {:induction false} IndexedSwap<K, V>(cap: nat, c: seq<Ctrl>, c': seq<Ctrl>, slots: seq<Slot<K, V>>,
                          index: map<K, nat>, m: map<K, V>, i: nat, t: nat)
    requires Indexed(cap, c, slots, true, index, m) && cap <= |c'|
    requires i < cap && t < cap && i != t && c[i].Deleted? && c[t].Deleted? && c'[t].Full?
    requires forall p :: 0 <= p < cap && p != t ==> c'[p] == c[p]
    ensures Indexed(cap, c', slots[t := slots[i]][i := slots[t]], true, index[slots[i].key := t][slots[t].key := i], m)
  {
    assert SlotIndexed(c, slots, true, index, i) && SlotIndexed(c, slots, true, index, t);
    assert KeyPlaced(c, slots, true, index, m, slots[i].key) && KeyPlaced(c, slots, true, index, m, slots[t].key);
    var slots', index', m' := slots[t := slots[i]][i := slots[t]], index[slots[i].key := t][slots[t].key := i], m;
    forall k | k in index'
      ensures KeyPlaced(c', slots', true, index', m', k)
    {
      assert KeyPlaced(c, slots, true, index, m, k) || k !in index;
    }
    forall p | 0 <= p < cap
      ensures SlotIndexed(c', slots', true, index', p)
    {
      assert SlotIndexed(c, slots, true, index, p);
    }
  }

  /** Rehashing settles one waiting element a step. */
  lemma {:induction false} RehashCounts(c: seq<Ctrl>, c1: seq<Ctrl>, c2: seq<Ctrl>, n: nat, i: nat, t: nat)
    requires n <= |c| && n <= |c1| && n <= |c2| && i < n && t < n
    requires forall p :: 0 <= p < n && p != t ==> c1[p] == c[p]
    requires forall p :: 0 <= p < n && p != i ==> c2[p] == c1[p]
    requires c[i].Deleted? && c1[t].Full?
    requires (t == i && c2[i].Full?) || (t != i && c[t].Empty? && c2[i].Empty?)
             || (t != i && c[t].Deleted? && c2[i].Deleted?)
    ensures CountFull(c2, n) == CountFull(c, n) + 1 && CountDeleted(c2, n) + 1 == CountDeleted(c, n)
  {
    CountsUpdate(c, c1, n, t);
    CountsUpdate(c1, c2, n, i);
  }

  predicate NoneDeletedBelow(c: seq<Ctrl>, i: nat) {
    i <= |c| && forall p :: 0 <= p < i ==> !c[p].Deleted?
  }

  /** The two writes of a move, with their counts. */
  lemma {:induction false} RehashMoveWrites<K, V>(w: nat, cap: nat, c: seq<Ctrl>, slots: seq<Slot<K, V>>,
                                                  hash: K -> HashCode,
                               index: map<K, nat>, m: map<K, V>, i: nat, t: nat, j: nat) returns (c2: seq<Ctrl>)
    requires Rehashing(w, cap, c, slots, hash, index, m) && i < cap && c[i].Deleted?
    requires t < cap && c[t].Empty? && FirmAt(w, cap, c, hash(slots[i].key).h1, t, j) && NoneDeletedBelow(c, i)
    ensures Mirror(w, cap, i) < |c| && Mirror(w, cap, t) < |c| && |c2| == |c|
    ensures c2 == SetCtrl(w, cap, SetCtrl(w, cap, c, t, Full(hash(slots[i].key).h2)), i, Empty)
    ensures Rehashing(w, cap, c2, slots[t := slots[i]], hash, index[slots[i].key := t], m) && slots[i].key in m
    ensures CountFull(c2, cap) == CountFull(c, cap) + 1 && CountDeleted(c2, cap) + 1 == CountDeleted(c, cap)
    ensures NoneDeletedBelow(c2, i + 1)
  {
    SetCtrlLayout(w, cap, c, t, Full(hash(slots[i].key).h2));
    var c1 := SetCtrl(w, cap, c, t, Full(hash(slots[i].key).h2));
    SetCtrlLayout(w, cap, c1, i, Empty);
    c2 := SetCtrl(w, cap, c1, i, Empty);
    assert SlotIndexed(c, slots, true, index, i);
    RehashMove(w, cap, c, c1, c2, slots, hash, index, m, i, t, j);
    RehashCounts(c, c1, c2, cap, i, t);
  }

  /** The write that settles an element where it is, with its counts. */
  lemma {:induction false} RehashStayWrites<K, V>(w: nat, cap: nat, c: seq<Ctrl>, slots: seq<Slot<K, V>>,
                                                  hash: K -> HashCode,
                               index: map<K, nat>, m: map<K, V>, i: nat, t: nat, j: nat) returns (c': seq<Ctrl>)
    requires Rehashing(w, cap, c, slots, hash, index, m) && !IsSmall(w, cap) && i < cap && c[i].Deleted?
    requires t < cap && FirmAt(w, cap, c, hash(slots[i].key).h1, t, j)
    requires ProbeIndex(hash(slots[i].key).h1, cap, w, t) == ProbeIndex(hash(slots[i].key).h1, cap, w, i)
    requires NoneDeletedBelow(c, i)
    ensures Mirror(w, cap, i) < |c| && |c'| == |c|
    ensures c' == SetCtrl(w, cap, c, i, Full(hash(slots[i].key).h2))
    ensures Rehashing(w, cap, c', slots, hash, index, m)
    ensures CountFull(c', cap) == CountFull(c, cap) + 1 && CountDeleted(c', cap) + 1 == CountDeleted(c, cap)
    ensures NoneDeletedBelow(c', i + 1)
  {
    SetCtrlLayout(w, cap, c, i, Full(hash(slots[i].key).h2));
    c' := SetCtrl(w, cap, c, i, Full(hash(slots[i].key).h2));
    RehashStay(w, cap, c, c', slots, hash, index, m, i, t, j);
    RehashCounts(c, c', c', cap, i, i);
  }
}
