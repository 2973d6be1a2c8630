/** The invariants of a table at each stage of an operation, and what every step makes of them. */
module TableStages {
  import opened Probing
  import opened Group
  import opened Capacity
  import opened TableModel

  /** The fields of a table as one value, with the map it stands for and the slot of each key. */
  datatype View<!K, V> = View(
    w: nat, cap: nat, ctrl: seq<Ctrl>, slots: seq<Slot<K, V>>, hash: K -> HashCode,
    size: nat, growthLeft: int, contents: map<K, V>, index: map<K, nat>)
  {
    /** Enough to index into the arrays. */
    ghost predicate Shaped() {
      IsWidth(w) && |slots| == cap && cap + w <= |ctrl| && index.Keys == contents.Keys
    }

    ghost predicate Represented() {
      Represents(w, cap, ctrl, slots, hash, index, contents)
    }

    ghost predicate Rehashed() {
      Rehashing(w, cap, ctrl, slots, hash, index, contents)
    }
  }

  datatype Stage =
    | Idle                           // between operations
    | Fill                           // a fresh table being filled
    | InPlace(i: nat)                // slots below `i` are settled or empty, elements of the others may wait
    | Prepare(h: HashCode, t: nat)   // slot `t` is marked full for a key with hash `h`, not yet constructed

  ghost predicate Holds<K, V>(stage: Stage, v: View<K, V>) {
    match stage
    case Idle =>
      v.Represented() && v.growthLeft >= 0 && Accounted(v.w, v.cap, v.ctrl, v.size, v.growthLeft)
      && v.size == |v.contents|
    case Fill =>
      v.Represented() && CountDeleted(v.ctrl, v.cap) == 0 && CountFull(v.ctrl, v.cap) == |v.contents|
    case InPlace(i) =>
      && v.Rehashed() && !IsSmall(v.w, v.cap)
      && CountFull(v.ctrl, v.cap) + CountDeleted(v.ctrl, v.cap) == |v.contents|
      && NoneDeletedBelow(v.ctrl, i)
    case Prepare(h, t) =>
      && (exists before: seq<Ctrl> :: WasBefore(v, h, t, before))
      && v.growthLeft >= 0 && Accounted(v.w, v.cap, v.ctrl, v.size, v.growthLeft) && v.size == |v.contents| + 1
  }

  ghost predicate WasBefore<K, V>(v: View<K, V>, h: HashCode, t: nat, before: seq<Ctrl>) {
    && v.(ctrl := before).Represented() && Wrote(v.w, v.cap, before, v.ctrl, t, Full(h.h2))
    && before[t].EmptyOrDeleted() && Reachable(v.w, v.cap, before, h.h1, t)
  }

  /** `Holds` behind a recursion, so that methods can pass it on without the verifier unfolding it;
      the lemma `Unlock` is the way in. The depth, `|v.ctrl|`, is any number the verifier does not know. */
  ghost predicate Locked<K, V>(n: nat, stage: Stage, v: View<K, V>) {
    if n == 0 then Holds(stage, v) else Locked(n - 1, stage, v)
  }

  ghost predicate At<K, V>(stage: Stage, v: View<K, V>) {
    v.Shaped() && Locked(|v.ctrl|, stage, v)
  }

  lemma {:induction false} Unlock<K, V>(n: nat, stage: Stage, v: View<K, V>)
    ensures Locked(n, stage, v) <==> Holds(stage, v)
  {
    if n == 0 {
    } else {
      Unlock(n - 1, stage, v);
    }
  }

  lemma {:induction false} Opened<K, V>(stage: Stage, v: View<K, V>)
    requires At(stage, v)
    ensures Holds(stage, v)
  {
    Unlock(|v.ctrl|, stage, v);
  }

  lemma {:induction false} Closed<K, V>(stage: Stage, v: View<K, V>)
    requires v.Shaped() && Holds(stage, v)
    ensures At(stage, v)
  {
    Unlock(|v.ctrl|, stage, v);
  }

  // ----- loads -----

  /** What an operation learns about the load of a table: a large one has an empty slot, a small one
      has no deleted slot. */
  lemma {:induction false} LoadOf<K, V>(v: View<K, V>)
    requires At(Idle, v)
    ensures Layout(v.w, v.cap, v.ctrl) && v.size == CountFull(v.ctrl, v.cap) == |v.contents| && v.growthLeft >= 0
    ensures v.size + CountDeleted(v.ctrl, v.cap) + v.growthLeft == CapacityToGrowth(v.w, v.cap)
    ensures !IsSmall(v.w, v.cap) ==> v.size + CountDeleted(v.ctrl, v.cap) < v.cap
    ensures IsSmall(v.w, v.cap) ==> CountDeleted(v.ctrl, v.cap) == 0
  {
    Opened(Idle, v);
    if v.cap > 0 {
      GrowthLeavesRoom(v.w, v.cap);
    }
  }

  lemma {:induction false} SizeOf<K, V>(v: View<K, V>)
    requires At(Idle, v)
    ensures v.size == |v.contents| && v.growthLeft >= 0 && v.size + v.growthLeft <= CapacityToGrowth(v.w, v.cap)
    ensures v.growthLeft == 0 && IsSmall(v.w, v.cap) ==> v.size == CapacityToGrowth(v.w, v.cap)
    ensures v.cap == 0 || IsValidCapacity(v.cap)
  {
    LoadOf(v);
  }

  // ----- erasing -----

  /** The mark `erase_meta_only` writes. */
  function Mark(wasNeverFull: bool): Ctrl {
    if wasNeverFull then Empty else Deleted
  }

  /** `v` after writing control byte `i`. */
  ghost function WithCtrl<K, V>(v: View<K, V>, i: nat, h: Ctrl): View<K, V>
    requires IsWidth(v.w) && i < v.cap && i < |v.ctrl| && Mirror(v.w, v.cap, i) < |v.ctrl|
  {
    v.(ctrl := SetCtrl(v.w, v.cap, v.ctrl, i, h))
  }

  ghost function Erased<K, V>(v: View<K, V>, s: nat, wasNeverFull: bool): View<K, V>
    requires v.Shaped() && s < v.cap && Mirror(v.w, v.cap, s) < |v.ctrl| && v.size > 0
  {
    WithCtrl(v, s, Mark(wasNeverFull)).(
      size := v.size - 1, growthLeft := v.growthLeft + if wasNeverFull then 1 else 0,
      contents := v.contents - {v.slots[s].key}, index := v.index - {v.slots[s].key})
  }

  lemma {:induction false} EraseStep<K, V>(v: View<K, V>, s: nat, wasNeverFull: bool)
    requires At(Idle, v) && s < v.cap && v.ctrl[s].Full? && (wasNeverFull <==> ShortRun(v.w, v.cap, v.ctrl, s))
    ensures v.size > 0 && v.slots[s].key in v.contents && Mirror(v.w, v.cap, s) < |v.ctrl|
    ensures At(Idle, Erased(v, s, wasNeverFull))
    ensures Erased(v, s, wasNeverFull).ctrl[s] == Mark(wasNeverFull)
    ensures forall p :: 0 <= p < v.cap && p != s ==> Erased(v, s, wasNeverFull).ctrl[p] == v.ctrl[p]
  {
    Opened(Idle, v);
    SetCtrlLayout(v.w, v.cap, v.ctrl, s, Mark(wasNeverFull));
    var c' := SetCtrl(v.w, v.cap, v.ctrl, s, Mark(wasNeverFull));
    EraseKeeps(v.w, v.cap, v.ctrl, c', v.slots, v.hash, v.index, v.contents, s, wasNeverFull, v.size, v.growthLeft);
    assert |v.contents - {v.slots[s].key}| == |v.contents| - 1;
    Closed(Idle, Erased(v, s, wasNeverFull));
  }

  // ----- filling a fresh table -----

  lemma {:induction false} FillStarts<K, V>(v: View<K, V>)
    requires IsWidth(v.w) && IsValidCapacity(v.cap) && |v.ctrl| == v.cap + v.w + 1 && |v.slots| == v.cap
    requires forall p :: 0 <= p < v.cap + v.w ==> v.ctrl[p] == if p == v.cap then Sentinel else Empty
    requires v.contents == map[] && v.index == map[]
    ensures At(Fill, v)
  {
    AllEmptyCounts(v.ctrl, v.cap);
    SmallCapacities(v.cap);
    Closed(Fill, v);
  }

  lemma {:induction false} AllEmptyCounts(c: seq<Ctrl>, n: nat)
    requires n <= |c| && forall p :: 0 <= p < n ==> c[p].Empty?
    ensures CountFull(c, n) == 0 && CountDeleted(c, n) == 0
  {
    if n == 0 {
    } else {
      AllEmptyCounts(c, n - 1);
    }
  }

  /** A full slot `t` holding `e`, which was not in the table. */
  ghost function Filled<K, V>(v: View<K, V>, e: Slot<K, V>, t: nat): View<K, V>
    requires v.Shaped() && t < v.cap && Mirror(v.w, v.cap, t) < |v.ctrl|
  {
    WithCtrl(v, t, Full(v.hash(e.key).h2)).(
      slots := v.slots[t := e], contents := v.contents[e.key := e.value], index := v.index[e.key := t])
  }

  lemma {:induction false} FillStep<K, V>(v: View<K, V>, e: Slot<K, V>, t: nat, j: nat)
    requires At(Fill, v) && e.key !in v.contents
    requires t < v.cap && v.ctrl[t].EmptyOrDeleted() && FirmAt(v.w, v.cap, v.ctrl, v.hash(e.key).h1, t, j)
    ensures Mirror(v.w, v.cap, t) < |v.ctrl| && At(Fill, Filled(v, e, t))
  {
    Opened(Fill, v);
    var h := v.hash(e.key);
    SetCtrlLayout(v.w, v.cap, v.ctrl, t, Full(h.h2));
    var c' := SetCtrl(v.w, v.cap, v.ctrl, t, Full(h.h2));
    assert Firm(v.w, v.cap, v.ctrl, h.h1, t);
    FirmReachable(v.w, v.cap, v.ctrl, h.h1, t);
    RepresentsInsert(v.w, v.cap, v.ctrl, c', v.slots, v.hash, v.index, v.contents, t, e.key, e.value);
    NoneDeleted(v.ctrl, v.cap);
    CountsUpdate(v.ctrl, c', v.cap, t);
    Closed(Fill, Filled(v, e, t));
  }

  /** While a table is being filled, its counters are of no account. */
  lemma {:induction false} FillCounters<K, V>(v: View<K, V>, size: nat, growthLeft: int)
    requires At(Fill, v)
    ensures At(Fill, v.(size := size, growthLeft := growthLeft))
  {
    Opened(Fill, v);
    Closed(Fill, v.(size := size, growthLeft := growthLeft));
  }

  lemma {:induction false} FillEnds<K, V>(v: View<K, V>)
    requires At(Fill, v) && v.size == |v.contents| <= CapacityToGrowth(v.w, v.cap)
    requires v.growthLeft == CapacityToGrowth(v.w, v.cap) - v.size
    ensures At(Idle, v)
  {
    Opened(Fill, v);
    Closed(Idle, v);
  }

  /** The elements of the slots below `i`. */
  ghost function Below<K, V>(v: View<K, V>, i: nat): map<K, V>
    requires v.index.Keys == v.contents.Keys
  {
    map k | k in v.contents && v.index[k] < i :: v.contents[k]
  }

  lemma {:induction false} BelowStep<K, V>(v: View<K, V>, i: nat)
    requires At(Idle, v) && i < v.cap
    ensures !v.ctrl[i].Full? ==> Below(v, i + 1) == Below(v, i)
    ensures v.ctrl[i].Full? ==>
      && v.slots[i].key !in Below(v, i) && |Below(v, i)| < v.size
      && Below(v, i + 1) == Below(v, i)[v.slots[i].key := v.slots[i].value]
  {
    Opened(Idle, v);
    assert SlotIndexed(v.ctrl, v.slots, false, v.index, i);
    forall k | k in v.index
      ensures v.index[k] == i ==> v.ctrl[i].Full? && k == v.slots[i].key && v.contents[k] == v.slots[i].value
    {
      assert KeyPlaced(v.ctrl, v.slots, false, v.index, v.contents, k);
    }
    if v.ctrl[i].Full? {
      SmallerSet(Below(v, i).Keys, v.contents.Keys, v.slots[i].key);
    }
  }

  lemma {:induction false} SmallerSet<K>(a: set<K>, b: set<K>, k: K)
    requires a <= b && k in b && k !in a
    ensures |a| < |b|
    decreases |a|
  {
    if a == {} {
    } else {
      var x :| x in a;
      SmallerSet(a - {x}, b - {x}, k);
    }
  }

  lemma {:induction false} BelowAll<K, V>(v: View<K, V>)
    requires At(Idle, v)
    ensures Below(v, v.cap) == v.contents && v.size == |v.contents|
  {
    Opened(Idle, v);
    forall k | k in v.index
      ensures v.index[k] < v.cap
    {
      assert KeyPlaced(v.ctrl, v.slots, false, v.index, v.contents, k);
    }
  }

  lemma {:induction false} BelowSkip<K, V>(v: View<K, V>, a: nat, b: nat)
    requires At(Idle, v) && a <= b <= v.cap && forall p :: a <= p < b ==> !v.ctrl[p].Full?
    ensures Below(v, b) == Below(v, a)
    decreases b - a
  {
    if a == b {
    } else {
      BelowStep(v, a);
      BelowSkip(v, a + 1, b);
    }
  }

  /** What `merge` has left in the source `v` after visiting the slots below `i`: `mine` are the
      elements the destination had. */
  ghost function LeftBelow<K, V>(v: View<K, V>, mine: map<K, V>, i: nat): map<K, V>
    requires v.index.Keys == v.contents.Keys
  {
    map k | k in v.contents && (v.index[k] < i ==> k in mine) :: v.contents[k]
  }

  /** The state of a merge that has visited the slots below `i` of the source `v`. */
  ghost predicate MergedBelow<K, V>(v: View<K, V>, mine: map<K, V>, i: nat, here: map<K, V>, there: map<K, V>)
    requires v.index.Keys == v.contents.Keys
  {
    here == Below(v, i) + mine && there == LeftBelow(v, mine, i)
  }

  lemma {:induction false} MergeStarts<K, V>(v: View<K, V>, mine: map<K, V>, i: nat)
    requires At(Idle, v) && i <= v.cap && forall p :: 0 <= p < i ==> !v.ctrl[p].Full?
    ensures MergedBelow(v, mine, i, mine, v.contents)
  {
    BelowSkip(v, 0, i);
    LeftSkip(v, mine, 0, i);
    assert Below(v, 0) + mine == mine && LeftBelow(v, mine, 0) == v.contents;
  }

  lemma {:induction false} MergeEnds<K, V>(v: View<K, V>, mine: map<K, V>, here: map<K, V>, there: map<K, V>)
    requires At(Idle, v) && MergedBelow(v, mine, v.cap, here, there)
    ensures here == v.contents + mine && there == map k | k in v.contents && k in mine :: v.contents[k]
  {
    BelowAll(v);
    forall k | k in v.contents
      ensures v.index[k] < v.cap
    {
      assert k in Below(v, v.cap);
    }
  }

  /** One visit moves the element of slot `i` unless its key is among `mine`; then slots without an
      element are passed over. */
  lemma {:induction false} MergeVisit<K, V>(v: View<K, V>, mine: map<K, V>, i: nat, next: nat, here: map<K, V>,
                                            there: map<K, V>)
    requires At(Idle, v) && i < next <= v.cap && v.ctrl[i].Full? && MergedBelow(v, mine, i, here, there)
    requires forall p :: i < p < next ==> !v.ctrl[p].Full?
    ensures var e := v.slots[i];
      MergedBelow(v, mine, next, if e.key in here then here else here[e.key := e.value],
                  if e.key in here then there else there - {e.key})
  {
    MergeBelowStep(v, mine, i);
    MergeLeftStep(v, mine, i);
    BelowSkip(v, i + 1, next);
    LeftSkip(v, mine, i + 1, next);
  }

  lemma {:induction false} MergeBelowStep<K, V>(v: View<K, V>, mine: map<K, V>, i: nat)
    requires At(Idle, v) && i < v.cap && v.ctrl[i].Full?
    ensures var e := v.slots[i];
      && (e.key in Below(v, i) + mine <==> e.key in mine)
      && Below(v, i + 1) + mine == if e.key in mine then Below(v, i) + mine else (Below(v, i) + mine)[e.key := e.value]
  {
    BelowStep(v, i);
    AddUnder(Below(v, i), mine, v.slots[i].key, v.slots[i].value);
  }

  lemma {:induction false} AddUnder<K, V>(m: map<K, V>, over: map<K, V>, k: K, x: V)
    ensures m[k := x] + over == if k in over then m + over else (m + over)[k := x]
  {
  }

  lemma {:induction false} MergeLeftStep<K, V>(v: View<K, V>, mine: map<K, V>, i: nat)
    requires At(Idle, v) && i < v.cap && v.ctrl[i].Full?
    ensures var key := v.slots[i].key;
      LeftBelow(v, mine, i + 1) == if key in mine then LeftBelow(v, mine, i) else LeftBelow(v, mine, i) - {key}
  {
    SlotOf(v, i);
  }

  lemma {:induction false} SlotOf<K, V>(v: View<K, V>, i: nat)
    requires At(Idle, v) && i < v.cap && v.ctrl[i].Full?
    ensures v.slots[i].key in v.index && v.index[v.slots[i].key] == i
    ensures forall k :: k in v.index && v.index[k] == i ==> k == v.slots[i].key
  {
    Opened(Idle, v);
    assert SlotIndexed(v.ctrl, v.slots, false, v.index, i);
    forall k | k in v.index && v.index[k] == i
      ensures k == v.slots[i].key
    {
      assert KeyPlaced(v.ctrl, v.slots, false, v.index, v.contents, k);
    }
  }

  lemma {:induction false} LeftSkip<K, V>(v: View<K, V>, mine: map<K, V>, a: nat, b: nat)
    requires At(Idle, v) && a <= b <= v.cap && forall p :: a <= p < b ==> !v.ctrl[p].Full?
    ensures LeftBelow(v, mine, b) == LeftBelow(v, mine, a)
  {
    BelowSkip(v, a, b);
    forall k | k in v.contents
      ensures v.index[k] < b <==> v.index[k] < a
    {
      assert k in Below(v, b) <==> k in Below(v, a);
    }
  }

  // ----- rehashing in place -----

  lemma {:induction false} RehashStarts<K, V>(v: View<K, V>, c: seq<Ctrl>)
    requires At(Idle, v) && !IsSmall(v.w, v.cap) && Layout(v.w, v.cap, c)
    requires forall p :: 0 <= p < v.cap ==> c[p] == Converted(v.ctrl[p])
    ensures At(InPlace(0), v.(ctrl := c))
  {
    Opened(Idle, v);
    RehashBegins(v.w, v.cap, v.ctrl, c, v.slots, v.hash, v.index, v.contents);
    Closed(InPlace(0), v.(ctrl := c));
  }

  lemma {:induction false} RehashFinishes<K, V>(v: View<K, V>)
    requires At(InPlace(v.cap), v) && v.size == |v.contents| <= CapacityToGrowth(v.w, v.cap)
    ensures At(Idle, v.(growthLeft := CapacityToGrowth(v.w, v.cap) - v.size))
  {
    Opened(InPlace(v.cap), v);
    RehashEnds(v.w, v.cap, v.ctrl, v.slots, v.hash, v.index, v.contents);
    Closed(Idle, v.(growthLeft := CapacityToGrowth(v.w, v.cap) - v.size));
  }

  /** A slot that is not deleted is passed over. */
  lemma {:induction false} RehashSkip<K, V>(v: View<K, V>, i: nat)
    requires At(InPlace(i), v) && i < v.cap && !v.ctrl[i].Deleted?
    ensures At(InPlace(i + 1), v)
  {
    Opened(InPlace(i), v);
    Closed(InPlace(i + 1), v);
  }

  /** A free slot `t` found for the waiting element of slot `i`. */
  ghost predicate Target<K, V>(v: View<K, V>, i: nat, t: nat, j: nat) {
    && At(InPlace(i), v) && i < v.cap && t < v.cap && v.ctrl[i].Deleted? && v.ctrl[t].EmptyOrDeleted()
    && FirmAt(v.w, v.cap, v.ctrl, v.hash(v.slots[i].key).h1, t, j)
  }

  lemma {:induction false} RehashStayStep<K, V>(v: View<K, V>, i: nat, t: nat, j: nat)
    requires Target(v, i, t, j)
    requires ProbeIndex(v.hash(v.slots[i].key).h1, v.cap, v.w, t)
          == ProbeIndex(v.hash(v.slots[i].key).h1, v.cap, v.w, i)
    ensures Mirror(v.w, v.cap, i) < |v.ctrl| && At(InPlace(i + 1), WithCtrl(v, i, Full(v.hash(v.slots[i].key).h2)))
  {
    Opened(InPlace(i), v);
    var c := RehashStayWrites(v.w, v.cap, v.ctrl, v.slots, v.hash, v.index, v.contents, i, t, j);
    var v' := WithCtrl(v, i, Full(v.hash(v.slots[i].key).h2));
    assert v'.ctrl == c && v'.Shaped() && v'.Rehashed();
    Closed(InPlace(i + 1), v');
  }

  ghost function Moved<K, V>(v: View<K, V>, i: nat, t: nat): View<K, V>
    requires v.Shaped() && i < v.cap && t < v.cap && Mirror(v.w, v.cap, i) < |v.ctrl|
    requires Mirror(v.w, v.cap, t) < |v.ctrl|
  {
    WithCtrl(WithCtrl(v, t, Full(v.hash(v.slots[i].key).h2)), i, Empty).(
      slots := v.slots[t := v.slots[i]], index := v.index[v.slots[i].key := t])
  }

  lemma {:induction false} RehashMoveStep<K, V>(v: View<K, V>, i: nat, t: nat, j: nat)
    requires Target(v, i, t, j) && v.ctrl[t].Empty?
    ensures Mirror(v.w, v.cap, i) < |v.ctrl| && Mirror(v.w, v.cap, t) < |v.ctrl| && At(InPlace(i + 1), Moved(v, i, t))
  {
    Opened(InPlace(i), v);
    var c := RehashMoveWrites(v.w, v.cap, v.ctrl, v.slots, v.hash, v.index, v.contents, i, t, j);
    var v' := Moved(v, i, t);
    assert v'.ctrl == c && v'.Shaped() && v'.Rehashed();
    Closed(InPlace(i + 1), v');
  }

  ghost function Swapped<K, V>(v: View<K, V>, i: nat, t: nat): View<K, V>
    requires v.Shaped() && i < v.cap && t < v.cap && Mirror(v.w, v.cap, t) < |v.ctrl|
  {
    WithCtrl(v, t, Full(v.hash(v.slots[i].key).h2)).(
      slots := v.slots[t := v.slots[i]][i := v.slots[t]], index := v.index[v.slots[i].key := t][v.slots[t].key := i])
  }

  lemma {:induction false} RehashSwapStep<K, V>(v: View<K, V>, i: nat, t: nat, j: nat)
    requires Target(v, i, t, j) && v.ctrl[t].Deleted? && t != i
    ensures Mirror(v.w, v.cap, t) < |v.ctrl| && At(InPlace(i), Swapped(v, i, t))
    ensures CountDeleted(Swapped(v, i, t).ctrl, v.cap) < CountDeleted(v.ctrl, v.cap)
  {
    Opened(InPlace(i), v);
    var mark := Full(v.hash(v.slots[i].key).h2);
    SetCtrlLayout(v.w, v.cap, v.ctrl, t, mark);
    var c' := SetCtrl(v.w, v.cap, v.ctrl, t, mark);
    assert SlotIndexed(v.ctrl, v.slots, true, v.index, i) && SlotIndexed(v.ctrl, v.slots, true, v.index, t);
    RehashSwap(v.w, v.cap, v.ctrl, c', v.slots, v.hash, v.index, v.contents, i, t, j);
    RehashCounts(v.ctrl, c', c', v.cap, i, t);
    Closed(InPlace(i), Swapped(v, i, t));
  }

  // ----- inserting -----

  ghost function Marked<K, V>(v: View<K, V>, h: HashCode, t: nat): View<K, V>
    requires v.Shaped() && t < v.cap && Mirror(v.w, v.cap, t) < |v.ctrl|
  {
    WithCtrl(v, t, Full(h.h2)).(size := v.size + 1, growthLeft := v.growthLeft - if v.ctrl[t].Empty? then 1 else 0)
  }

  lemma {:induction false} PrepareStep<K, V>(v: View<K, V>, h: HashCode, t: nat, j: nat)
    requires At(Idle, v) && t < v.cap && v.ctrl[t].EmptyOrDeleted() && FirmAt(v.w, v.cap, v.ctrl, h.h1, t, j)
    requires v.ctrl[t].Empty? ==> v.growthLeft > 0
    ensures Mirror(v.w, v.cap, t) < |v.ctrl| && At(Prepare(h, t), Marked(v, h, t))
    ensures forall p :: 0 <= p < v.cap && p != t ==> Marked(v, h, t).ctrl[p] == v.ctrl[p]
  {
    Opened(Idle, v);
    SetCtrlLayout(v.w, v.cap, v.ctrl, t, Full(h.h2));
    assert Firm(v.w, v.cap, v.ctrl, h.h1, t);
    FirmReachable(v.w, v.cap, v.ctrl, h.h1, t);
    CountsUpdate(v.ctrl, SetCtrl(v.w, v.cap, v.ctrl, t, Full(h.h2)), v.cap, t);
    assert WasBefore(Marked(v, h, t), h, t, v.ctrl);
    Closed(Prepare(h, t), Marked(v, h, t));
  }

  ghost function Constructed<K, V>(v: View<K, V>, e: Slot<K, V>, t: nat): View<K, V>
    requires t < |v.slots|
  {
    v.(slots := v.slots[t := e], contents := v.contents[e.key := e.value], index := v.index[e.key := t])
  }

  lemma {:induction false} EmplaceStep<K, V>(v: View<K, V>, e: Slot<K, V>, t: nat)
    requires At(Prepare(v.hash(e.key), t), v) && e.key !in v.contents && t < v.cap
    ensures At(Idle, Constructed(v, e, t))
  {
    var h := v.hash(e.key);
    Opened(Prepare(h, t), v);
    var before: seq<Ctrl> :| WasBefore(v, h, t, before);
    RepresentsInsert(v.w, v.cap, before, v.ctrl, v.slots, v.hash, v.index, v.contents, t, e.key, e.value);
    Closed(Idle, Constructed(v, e, t));
  }

  /** Between the two no slot but `r` has changed, nor its control byte, and `r` only if it was free: nothing was
      rehashed. */
  ghost predicate OnlySlot<K, V>(cap: nat, c: seq<Ctrl>, c': seq<Ctrl>,
                                 slots: seq<Slot<K, V>>, slots': seq<Slot<K, V>>, r: nat)
  {
    && cap <= |c| && cap <= |c'| && |slots| == |slots'| == cap
    && forall p :: 0 <= p < cap && (p != r || c[p].Full?) ==> c'[p] == c[p] && slots'[p] == slots[p]
  }

  // ----- searches that never end -----

  /** In the j-th window a search for `key` finds neither the key nor an empty byte. */
  ghost predicate GoesOn<K, V>(v: View<K, V>, key: K, j: nat) {
    && Layout(v.w, v.cap, v.ctrl) && |v.slots| == v.cap
    && !HasEmpty(v.w, v.cap, v.ctrl, ProbeOffset(v.hash(key).h1, v.cap, v.w, j))
    && KeyNotIn(v.w, v.cap, v.ctrl, v.slots, ProbeOffset(v.hash(key).h1, v.cap, v.w, j), key)
  }

  ghost predicate NeverEnds<K, V>(v: View<K, V>, key: K) {
    forall j: nat :: GoesOn(v, key, j)
  }

  lemma {:induction false} FullHasNoEmpty(w: nat, cap: nat, c: seq<Ctrl>, o: nat)
    requires Layout(w, cap, c) && !IsSmall(w, cap) && CountFull(c, cap) == cap && o <= cap
    ensures !HasEmpty(w, cap, c, o)
  {
    AllFull(c, cap);
    forall e | 0 <= e < w ensures !Loaded(w, cap, c, o)[e].Empty? {
      LoadedFrom(w, cap, c, o, e);
    }
  }

  lemma {:induction false} AbsentNotIn<K, V>(v: View<K, V>, key: K, o: nat)
    requires v.Represented() && key !in v.contents && o <= v.cap
    ensures KeyNotIn(v.w, v.cap, v.ctrl, v.slots, o, key)
  {
    forall p | 0 <= p < v.cap && v.ctrl[p].Full? ensures v.slots[p].key != key {
      assert SlotIndexed(v.ctrl, v.slots, false, v.index, p);
    }
  }

  lemma {:induction false} EmptyEnds<K, V>(v: View<K, V>, key: K, p: nat) returns (j: nat)
    requires v.Represented() && !IsSmall(v.w, v.cap) && p < v.cap && v.ctrl[p].Empty?
    ensures !GoesOn(v, key, j)
  {
    var n := ProbeBound(v.w, v.cap);
    j := WindowsCover(v.hash(key).h1, v.cap, v.w, n, p);
    var o := ProbeOffset(v.hash(key).h1, v.cap, v.w, j);
    LoadReads(v.w, v.cap, v.ctrl, o, p);
    assert Loaded(v.w, v.cap, v.ctrl, o)[Dist(v.cap, o, p)].Empty?;
  }

  lemma {:induction false} SmallEnds<K, V>(v: View<K, V>, key: K)
    requires v.Represented() && IsSmall(v.w, v.cap)
    ensures !GoesOn(v, key, 0)
  {
    var o := ProbeOffset(v.hash(key).h1, v.cap, v.w, 0);
    if !HasEmpty(v.w, v.cap, v.ctrl, o) {
      GroupWithoutEmpty(v.w, v.cap, v.ctrl, o);
    }
  }

  /** The search for a key that is not there never ends exactly when the table is large and every slot is full. */
  lemma {:induction false} NeverEndsExact<K, V>(v: View<K, V>, key: K)
    requires v.Represented() && CountDeleted(v.ctrl, v.cap) == 0 && key !in v.contents
    ensures NeverEnds(v, key) <==> !IsSmall(v.w, v.cap) && CountFull(v.ctrl, v.cap) == v.cap
  {
    if IsSmall(v.w, v.cap) {
      SmallEnds(v, key);
    } else if CountFull(v.ctrl, v.cap) == v.cap {
      forall j: nat ensures GoesOn(v, key, j) {
        FullHasNoEmpty(v.w, v.cap, v.ctrl, ProbeOffset(v.hash(key).h1, v.cap, v.w, j));
        AbsentNotIn(v, key, ProbeOffset(v.hash(key).h1, v.cap, v.w, j));
      }
    } else {
      var p := SomeEmpty(v.ctrl, v.cap);
      var j := EmptyEnds(v, key, p);
    }
  }

  lemma {:induction false} FilledNeverEnds<K, V>(v: View<K, V>, key: K)
    requires At(Fill, v) && key !in v.contents
    ensures NeverEnds(v, key) <==> !IsSmall(v.w, v.cap) && |v.contents| == v.cap
  {
    Opened(Fill, v);
    NeverEndsExact(v, key);
  }
}
