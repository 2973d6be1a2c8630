/** The open-addressing table: control bytes, slots, probing loops and rehashing in place. */
module RawHashSet {
  import opened Probing
  import opened Group
  import opened Capacity
  import opened TableModel
  import opened TableStages

  class Table<K(==,0), V(0)> {
    const w: nat
    const hash: K -> HashCode
    var ctrl: array<Ctrl>
    var slots: array<Slot<K, V>>
    var size: nat
    var capacity: nat
    // A negative value stands for the machine word it wraps to.
    var growthLeft: int

    // What the table stands for: the map, and the slot of each of its keys.
    ghost var contents: map<K, V>
    ghost var index: map<K, nat>

    ghost function Value(): View<K, V>
      reads this, ctrl, slots
    {
      View(w, capacity, ctrl[..], slots[..], hash, size, growthLeft, contents, index)
    }

    ghost predicate Valid()
      reads this, ctrl, slots
    {
      At(Idle, Value())
    }

    /** An empty table has no slots; its control bytes are those of the static empty group. */
    constructor (width: nat, hasher: K -> HashCode)
      requires IsWidth(width)
      ensures Valid() && fresh(ctrl) && fresh(slots)
      ensures w == width && hash == hasher && size == 0 && capacity == 0 && contents == map[] && growthLeft == 0
    {
      w, hash := width, hasher;
      ctrl := new Ctrl[16](i => if i == 0 then Sentinel else Empty);
      slots := new Slot<K, V>[0];
      size, capacity, growthLeft := 0, 0, 0;
      contents, index := map[], map[];
      new;
      Closed(Idle, Value());
    }

    // ----- searching -----

    /** The inner loop of a search: compares `key` with the candidates of one group.
        Returns the slot holding it, or `capacity`. */
    method FindInGroup(key: K, offset: nat) returns (s: nat)
      requires Value().Represented() && offset <= capacity
      ensures s <= capacity
      ensures s < capacity ==> key in index && s == index[key]
      ensures s == capacity ==> KeyNotIn(w, capacity, ctrl[..], slots[..], offset, key)
    {
      ghost var c, sl := ctrl[..], slots[..];
      var g := ctrl[offset..offset + w];
      assert g == Loaded(w, capacity, c, offset);
      var lanes := Match(g, hash(key).h2);
      for x := 0 to |lanes|
        invariant OtherKeys(capacity, sl, offset, lanes, x, key)
      {
        FullLaneIsSlot(w, capacity, c, offset, lanes[x]);
        s := Wrap(capacity, offset + lanes[x]);
        if slots[s].key == key {
          assert SlotIndexed(c, sl, false, index, s);
          return;
        }
        OtherKeysStep(capacity, sl, offset, lanes, x, key);
      }
      WindowMissed(w, capacity, c, sl, hash, offset, key, lanes);
      s := capacity;
    }

    /** `MatchEmpty` of the group at `offset`, as a truth value. */
    method GroupHasEmpty(offset: nat) returns (b: bool)
      requires Layout(w, capacity, ctrl[..]) && offset <= capacity
      ensures b <==> HasEmpty(w, capacity, ctrl[..], offset)
      ensures !b ==> !IsSmall(w, capacity) && NoEmptyIn(w, capacity, ctrl[..], offset)
    {
      var g := ctrl[offset..offset + w];
      assert g == Loaded(w, capacity, ctrl[..], offset);
      var e := NonEmptyPrefix(g);
      b := e < w;
      if !b {
        GroupWithoutEmpty(w, capacity, ctrl[..], offset);
      }
    }

    /** There is an empty byte for a search to end at. */
    ghost predicate Searchable()
      reads this, ctrl, slots
    {
      && Value().Represented()
      && (IsSmall(w, capacity) || CountFull(ctrl[..], capacity) + CountDeleted(ctrl[..], capacity) < capacity)
    }

    /** The probing loop of `find`. */
    method Search(key: K) returns (r: nat)
      requires Searchable()
      ensures key in contents ==>
                key in index && r == index[key] && r < capacity && ctrl[r].Full? && slots[r] == Slot(key, contents[key])
      ensures key !in contents ==> r == capacity
    {
      ghost var c, sl := ctrl[..], slots[..];
      var h1 := hash(key).h1;
      var offset, step := Wrap(capacity, h1), 0;
      ghost var j := 0;
      ghost var n := ProbeBound(w, capacity);
      while true
        invariant offset == ProbeOffset(h1, capacity, w, j) && step == Times(w, j) && j < n
        invariant Searched(w, capacity, c, sl, h1, key, j)
        decreases n - j
      {
        r := FindInGroup(key, offset);
        if r < capacity {
          assert KeyPlaced(c, sl, false, index, contents, key);
          return;
        }
        var stop := GroupHasEmpty(offset);
        if stop {
          SearchEnds(w, capacity, c, sl, hash, index, contents, key, j);
          return;
        }
        SearchGoesOn(w, capacity, c, sl, h1, key, n, j);
        offset, step := Next(capacity, w, offset, step, h1, j);
        j := j + 1;
      }
    }

    /** Finds the slot of `key`; `capacity` stands for `end()`. */
    method Find(key: K) returns (r: nat)
      requires Valid()
      ensures key in contents ==>
                key in index && r == index[key] && r < capacity && ctrl[r].Full? && slots[r] == Slot(key, contents[key])
      ensures key !in contents ==> r == capacity
    {
      LoadOf(Value());
      Opened(Idle, Value());
      r := Search(key);
    }

    /** `MatchEmptyOrDeleted` of the group at `offset`, and the slot of its lowest lane. */
    method GroupFirstFree(offset: nat) returns (found: bool, t: nat)
      requires Layout(w, capacity, ctrl[..]) && offset <= capacity
      ensures !found ==> !IsSmall(w, capacity) && BusyIn(w, capacity, ctrl[..], offset)
      ensures found && t < capacity ==>
                ctrl[..][t].EmptyOrDeleted() && Dist(capacity, offset, t) < w
                && CountFull(ctrl[..], capacity) < capacity
      ensures found && t >= capacity ==> t == capacity && CountFull(ctrl[..], capacity) == capacity
      ensures found ==> t <= capacity && FirstIn(capacity, ctrl[..], offset, t)
    {
      var g := ctrl[offset..offset + w];
      assert g == Loaded(w, capacity, ctrl[..], offset);
      var e := FirstEmptyOrDeleted(g);
      found := e < w;
      t := Wrap(capacity, offset + e);
      if found {
        FreeLane(w, capacity, ctrl[..], offset, e);
        FreeLaneFirst(w, capacity, ctrl[..], offset, e);
      } else {
        GroupBusy(w, capacity, ctrl[..], offset);
      }
    }

    /** The first empty or deleted slot on the probe sequence; every earlier window is busy. In a
        small table without room (and in a table without slots) the result is `capacity`. */
    method FindFirstNonFull(h1: nat) returns (t: nat, ghost j: nat)
      requires Layout(w, capacity, ctrl[..])
      requires IsSmall(w, capacity) || CountFull(ctrl[..], capacity) < capacity
      ensures CountFull(ctrl[..], capacity) < capacity ==> TargetAt(w, capacity, ctrl[..], h1, t, j)
      ensures CountFull(ctrl[..], capacity) == capacity ==> t == capacity
    {
      ghost var c := ctrl[..];
      var offset, step := Wrap(capacity, h1), 0;
      j := 0;
      ghost var n := ProbeBound(w, capacity);
      while true
        invariant offset == ProbeOffset(h1, capacity, w, j) && step == Times(w, j) && j < n
        invariant AllBusy(w, capacity, c, h1, j)
        decreases n - j
      {
        var found;
        found, t := GroupFirstFree(offset);
        if found {
          return;
        }
        AllBusyStep(w, capacity, c, h1, n, j);
        offset, step := Next(capacity, w, offset, step, h1, j);
        j := j + 1;
      }
    }

    // ----- iterating -----

    /** `skip_empty_or_deleted`: the first full slot from `i` on, or `capacity`. */
    method SkipEmptyOrDeleted(i: nat) returns (r: nat)
      requires Layout(w, capacity, ctrl[..]) && i <= capacity
      ensures i <= r <= capacity && (r < capacity ==> ctrl[r].Full?)
      ensures forall p :: i <= p < r ==> !ctrl[p].Full?
    {
      r := i;
      while ctrl[r].EmptyOrDeleted()
        invariant i <= r <= capacity
        invariant forall p :: i <= p < r ==> !ctrl[p].Full?
        decreases capacity - r
      {
        var g := ctrl[r..r + w];
        var shift := CountLeadingEmptyOrDeleted(g);
        assert g[0] == ctrl[r];
        assert capacity - r < w ==> g[capacity - r] == ctrl[capacity];
        assert forall p :: r <= p < r + shift ==> g[p - r] == ctrl[p];
        r := r + shift;
      }
    }

    // ----- erasing -----

    /** Writes a control byte and its clone. */
    method WriteCtrl(i: nat, h: Ctrl)
      requires IsWidth(w) && i < capacity && i < ctrl.Length && Mirror(w, capacity, i) < ctrl.Length
      modifies ctrl
      ensures ctrl[..] == SetCtrl(w, capacity, old(ctrl[..]), i, h)
    {
      ctrl[i] := h;
      assert ctrl[..] == old(ctrl[..])[i := h];
      ctrl[Mirror(w, capacity, i)] := h;
    }

    /** `MatchEmpty().TrailingZeros()` of the group at `offset`. */
    method RunAfter(offset: nat, ghost c: seq<Ctrl>) returns (n: nat)
      requires c == ctrl[..] && Layout(w, capacity, c) && offset <= capacity
      ensures n <= w && (n < w ==> Loaded(w, capacity, c, offset)[n].Empty?)
      ensures NoneEmpty(Loaded(w, capacity, c, offset), 0, n)
    {
      var g := ctrl[offset..offset + w];
      assert g == Loaded(w, capacity, c, offset);
      n := NonEmptyPrefix(g);
    }

    /** `MatchEmpty().LeadingZeros()` of the group at `offset`. */
    method RunBefore(offset: nat, ghost c: seq<Ctrl>) returns (n: nat)
      requires c == ctrl[..] && Layout(w, capacity, c) && offset <= capacity
      ensures n <= w && (n < w ==> Loaded(w, capacity, c, offset)[w - 1 - n].Empty?)
      ensures NoneEmpty(Loaded(w, capacity, c, offset), w - n, w)
    {
      var g := ctrl[offset..offset + w];
      assert g == Loaded(w, capacity, c, offset);
      n := NonEmptySuffix(g);
    }

    /** Whether no probe window over slot `s` can have been full: the non-empty run around it is
        shorter than a group. */
    method WasNeverFull(s: nat) returns (b: bool)
      requires Valid() && s < capacity
      ensures b <==> ShortRun(w, capacity, ctrl[..], s)
    {
      LoadOf(Value());
      b := IsShortRun(s);
    }

    /** The same from the layout alone. */
    method IsShortRun(s: nat) returns (b: bool)
      requires Layout(w, capacity, ctrl[..]) && s < capacity
      ensures b <==> ShortRun(w, capacity, ctrl[..], s)
    {
      ghost var c := ctrl[..];
      var before := Dist(capacity, Wrap(capacity, w), s);
      var after := RunAfter(s, c);
      var prior := RunBefore(before, c);
      b := after < w && prior < w && after + prior < w;
      RunDecides(w, capacity, c, s, before, after, prior);
    }

    /** Erases the element of slot `s`, marking the slot empty if the run around it is short, deleted
        otherwise. */
    method EraseMetaOnly(s: nat)
      requires Valid() && s < capacity && ctrl[s].Full?
      modifies this, ctrl
      ensures Valid() && capacity == old(capacity) && ctrl == old(ctrl) && slots == old(slots)
      ensures slots[s].key in old(contents) && contents == old(contents) - {slots[s].key}
      ensures ctrl[s] == Mark(old(ShortRun(w, capacity, ctrl[..], s)))
      ensures forall p :: 0 <= p < capacity && p != s ==> ctrl[p] == old(ctrl[p])
      ensures growthLeft == old(growthLeft) + if old(ShortRun(w, capacity, ctrl[..], s)) then 1 else 0
    {
      var wasNeverFull := WasNeverFull(s);
      ghost var v := Value();
      EraseStep(v, s, wasNeverFull);
      WriteCtrl(s, Mark(wasNeverFull));
      size := size - 1;
      growthLeft := growthLeft + if wasNeverFull then 1 else 0;
      contents, index := contents - {v.slots[s].key}, index - {v.slots[s].key};
      assert Value() == Erased(v, s, wasNeverFull);
    }

    /** `erase(key)`: the number of elements erased. */
    method Erase(key: K) returns (n: nat)
      requires Valid()
      modifies this, ctrl
      ensures Valid() && capacity == old(capacity) && ctrl == old(ctrl) && slots == old(slots)
      ensures contents == old(contents) - {key} && n == if key in old(contents) then 1 else 0
    {
      var s := Find(key);
      if s == capacity {
        return 0;
      }
      EraseMetaOnly(s);
      n := 1;
    }

    // ----- rehashing into a new array -----

    /** The loop body of `resize`: places an element that is known to be new. */
    method Place(e: Slot<K, V>)
      requires At(Fill, Value()) && e.key !in contents && |contents| < capacity
      modifies this`contents, this`index, ctrl, slots
      ensures At(Fill, Value()) && contents == old(contents)[e.key := e.value]
    {
      assert Layout(w, capacity, ctrl[..]) && CountFull(ctrl[..], capacity) < capacity by { Opened(Fill, Value()); }
      var h := hash(e.key);
      var t;
      ghost var j;
      t, j := FindFirstNonFull(h.h1);
      ghost var v := Value();
      FillStep(v, e, t, j);
      WriteCtrl(t, Full(h.h2));
      slots[t] := e;
      contents, index := contents[e.key := e.value], index[e.key := t];
      assert Value() == Filled(v, e, t);
    }

    /** `reset_ctrl`: all control bytes empty, except the sentinel. */
    method ResetCtrl()
      requires capacity + w <= ctrl.Length && w > 0
      modifies ctrl
      ensures forall p :: 0 <= p < capacity + w ==> ctrl[p] == if p == capacity then Sentinel else Empty
    {
      for i := 0 to capacity + w
        invariant forall p :: 0 <= p < i ==> ctrl[p] == Empty
      {
        ctrl[i] := Empty;
      }
      ctrl[capacity] := Sentinel;
    }

    /** `initialize_slots` with `reset_growth_left`. */
    method InitializeSlots(newCapacity: nat)
      requires IsWidth(w) && IsValidCapacity(newCapacity)
      modifies this
      ensures fresh(ctrl) && fresh(slots) && capacity == newCapacity && size == old(size)
      ensures growthLeft == CapacityToGrowth(w, capacity) - size
      ensures At(Fill, Value()) && contents == map[]
    {
      ctrl := new Ctrl[newCapacity + w + 1];
      slots := new Slot<K, V>[newCapacity];
      capacity := newCapacity;
      growthLeft := CapacityToGrowth(w, newCapacity) - size;
      contents, index := map[], map[];
      ResetCtrl();
      FillStarts(Value());
    }

    /** The loop of `resize`: every element of the old arrays finds a place in the new ones. */
    method TransferAll(oldCtrl: array<Ctrl>, oldSlots: array<Slot<K, V>>, ghost v: View<K, V>)
      requires At(Fill, Value()) && contents == map[] && At(Idle, v) && v.size <= capacity
      requires oldCtrl[..] == v.ctrl && oldSlots[..] == v.slots && oldCtrl != ctrl && oldSlots != slots
      modifies this`contents, this`index, ctrl, slots
      ensures At(Fill, Value()) && contents == v.contents
    {
      BelowAll(v);
      for i := 0 to oldSlots.Length
        invariant oldCtrl[..] == v.ctrl && oldSlots[..] == v.slots
        invariant At(Fill, Value()) && contents == Below(v, i)
      {
        BelowStep(v, i);
        if oldCtrl[i].Full? {
          Place(oldSlots[i]);
        }
      }
    }

    /** `resize`. The growth counter wraps when the elements exceed the load limit of the new
        capacity, which only `rehash(0)` can bring about. */
    method Resize(newCapacity: nat)
      requires Valid() && IsValidCapacity(newCapacity) && size <= newCapacity
      modifies this
      ensures fresh(ctrl) && fresh(slots) && capacity == newCapacity
      ensures contents == old(contents) && size == old(size) == |contents|
      ensures growthLeft == CapacityToGrowth(w, capacity) - size && At(Fill, Value())
      ensures size <= CapacityToGrowth(w, capacity) ==> Valid()
    {
      ghost var v := Value();
      SizeOf(v);
      var oldCtrl, oldSlots := ctrl, slots;
      InitializeSlots(newCapacity);
      TransferAll(oldCtrl, oldSlots, v);
      if size <= CapacityToGrowth(w, capacity) {
        FillEnds(Value());
      }
    }

    // ----- rehashing in place -----

    /** One step of the bulk conversion: the group at `pos`. */
    method ConvertGroup(pos: nat)
      requires IsWidth(w) && pos + w <= ctrl.Length
      modifies ctrl
      ensures forall p :: 0 <= p < ctrl.Length ==>
                ctrl[p] == if pos <= p < pos + w then Converted(old(ctrl[p])) else old(ctrl[p])
    {
      var g := ConvertSpecialToEmptyAndFullToDeleted(ctrl[pos..pos + w]);
      for i := 0 to w
        invariant forall p :: 0 <= p < ctrl.Length ==>
          ctrl[p] == if pos <= p < pos + i then Converted(old(ctrl[p])) else old(ctrl[p])
      {
        ctrl[pos + i] := g[i];
      }
    }

    /** The end of the bulk conversion: the clones are copied and the sentinel is restored. */
    method CopyClones()
      requires IsWidth(w) && IsValidCapacity(capacity) && !IsSmall(w, capacity) && ctrl.Length == capacity + w + 1
      requires forall p :: 0 <= p < capacity ==> ctrl[p] != Sentinel
      modifies ctrl
      ensures Layout(w, capacity, ctrl[..])
      ensures forall p :: 0 <= p < capacity ==> ctrl[p] == old(ctrl[p])
    {
      for i := 0 to w
        invariant forall p :: 0 <= p <= capacity ==> ctrl[p] == old(ctrl[p])
        invariant forall p :: 0 <= p < i ==> ctrl[capacity + 1 + p] == old(ctrl[p])
      {
        ctrl[capacity + 1 + i] := ctrl[i];
      }
      ctrl[capacity] := Sentinel;
      forall p | 0 <= p < capacity && p < w - 1
        ensures Cloned(capacity, ctrl[..], p)
      {
      }
    }

    /** Deleted becomes empty and full becomes deleted, group by group. */
    method ConvertDeletedToEmptyAndFullToDeleted()
      requires Layout(w, capacity, ctrl[..]) && !IsSmall(w, capacity)
      modifies ctrl
      ensures Layout(w, capacity, ctrl[..])
      ensures forall p :: 0 <= p < capacity ==> ctrl[..][p] == Converted(old(ctrl[..])[p])
    {
      ghost var c := ctrl[..];
      ghost var n := ProbeBound(w, capacity);
      ghost var k := 0;
      var pos := 0;
      while pos != capacity + 1
        invariant k <= n && pos == Times(w, k) && pos <= capacity + 1
        invariant forall p :: 0 <= p < ctrl.Length ==> ctrl[p] == if p < pos then Converted(c[p]) else c[p]
        decreases capacity + 1 - pos
      {
        TimesOrder(w, k, n);
        ConvertGroup(pos);
        pos, k := pos + w, k + 1;
        TimesOrder(w, k, n);
      }
      CopyClones();
    }

    method SettleHere(i: nat, t: nat, ghost j: nat)
      requires Target(Value(), i, t, j)
      requires ProbeIndex(hash(slots[i].key).h1, capacity, w, t) == ProbeIndex(hash(slots[i].key).h1, capacity, w, i)
      modifies ctrl
      ensures At(InPlace(i + 1), Value())
    {
      ghost var v := Value();
      RehashStayStep(v, i, t, j);
      var h := hash(slots[i].key);
      WriteCtrl(i, Full(h.h2));
      assert Value() == WithCtrl(v, i, Full(h.h2));
    }

    method MoveToEmpty(i: nat, t: nat, ghost j: nat)
      requires Target(Value(), i, t, j) && ctrl[t].Empty?
      modifies ctrl, slots, this`index
      ensures At(InPlace(i + 1), Value())
    {
      ghost var v := Value();
      RehashMoveStep(v, i, t, j);
      WriteCtrl(t, Full(hash(slots[i].key).h2));
      slots[t] := slots[i];
      WriteCtrl(i, Empty);
      index := index[v.slots[i].key := t];
      assert Value() == Moved(v, i, t);
    }

    method SwapWithDeleted(i: nat, t: nat, ghost j: nat)
      requires Target(Value(), i, t, j) && ctrl[t].Deleted? && t != i
      modifies ctrl, slots, this`index
      ensures At(InPlace(i), Value()) && CountDeleted(ctrl[..], capacity) < CountDeleted(old(ctrl[..]), capacity)
    {
      ghost var v := Value();
      RehashSwapStep(v, i, t, j);
      WriteCtrl(t, Full(hash(slots[i].key).h2));
      assert slots[..] == v.slots;
      var slot := slots[i];
      slots[i] := slots[t];
      slots[t] := slot;
      assert slots[..] == v.slots[t := v.slots[i]][i := v.slots[t]];
      index := index[v.slots[i].key := t][v.slots[t].key := i];
      assert Value() == Swapped(v, i, t);
    }

    /** Finds where the waiting element of slot `i` belongs. */
    method FindTarget(i: nat) returns (t: nat, ghost j: nat)
      requires At(InPlace(i), Value()) && i < capacity && ctrl[i].Deleted?
      ensures Target(Value(), i, t, j)
    {
      Opened(InPlace(i), Value());
      NotAllFull(ctrl[..], capacity, i);
      t, j := FindFirstNonFull(hash(slots[i].key).h1);
    }

    /** One visit of a slot marked deleted. On `again` the slot holds another waiting element. */
    method RehashSlot(i: nat) returns (again: bool)
      requires At(InPlace(i), Value()) && i < capacity && ctrl[i].Deleted?
      modifies ctrl, slots, this`index
      ensures !again ==> At(InPlace(i + 1), Value())
      ensures again ==>
        At(InPlace(i), Value()) && CountDeleted(ctrl[..], capacity) < CountDeleted(old(ctrl[..]), capacity)
    {
      var t;
      ghost var j;
      t, j := FindTarget(i);
      var h1 := hash(slots[i].key).h1;
      again := false;
      if ProbeIndex(h1, capacity, w, t) == ProbeIndex(h1, capacity, w, i) {
        SettleHere(i, t, j);
      } else if ctrl[t].Empty? {
        MoveToEmpty(i, t, j);
      } else {
        SwapWithDeleted(i, t, j);
        again := true;
      }
    }

    /** The loop of the in-place rehash. Each visit of a slot either moves on or lowers the number of
        deleted marks. */
    method RehashSlots()
      requires At(InPlace(0), Value())
      modifies ctrl, slots, this`index
      ensures At(InPlace(capacity), Value())
    {
      var i := 0;
      while i != capacity
        invariant At(InPlace(i), Value()) && i <= capacity
        decreases capacity - i, CountDeleted(ctrl[..], capacity)
      {
        if !ctrl[i].Deleted? {
          RehashSkip(Value(), i);
          i := i + 1;
        } else {
          var again := RehashSlot(i);
          i := if again then i else i + 1;
        }
      }
    }

    /** Rehashes without growing: every deleted mark goes, every element stays reachable. */
    method DropDeletesWithoutResize()
      requires Valid() && !IsSmall(w, capacity)
      modifies this, ctrl, slots
      ensures Valid() && ctrl == old(ctrl) && slots == old(slots) && capacity == old(capacity) && size == old(size)
      ensures contents == old(contents) && growthLeft == CapacityToGrowth(w, capacity) - size
      ensures CountDeleted(ctrl[..], capacity) == 0
    {
      ghost var v := Value();
      SizeOf(v);
      assert Layout(w, capacity, ctrl[..]) by { LoadOf(v); }
      ConvertDeletedToEmptyAndFullToDeleted();
      RehashStarts(v, ctrl[..]);
      assert Value() == v.(ctrl := ctrl[..]);
      RehashSlots();
      RehashFinishes(Value());
      growthLeft := CapacityToGrowth(w, capacity) - size;
      assert CountDeleted(ctrl[..], capacity) == 0 by { LoadOf(Value()); }
    }

    // ----- inserting -----

    /** More than half of the load limit is in use. */
    predicate HalfUsed()
      reads this
    {
      capacity == 0 || 2 * size > CapacityToGrowth(w, capacity)
    }

    /** An insertion cannot go on without making room: no growth is left, and the first free slot on its way is not
        a deleted one that could be used again. */
    ghost predicate Rehashes(h1: nat)
      reads this, ctrl
    {
      growthLeft == 0 && forall t: nat :: IsTarget(w, capacity, ctrl[..], h1, t) ==> !ctrl[..][t].Deleted?
    }

    lemma {:induction false} RehashesExact(h1: nat, t: nat, j: nat)
      requires t < ctrl.Length && capacity < ctrl.Length
      requires t < capacity ==> TargetAt(w, capacity, ctrl[..], h1, t, j)
      requires capacity <= t ==> CountFull(ctrl[..], capacity) == capacity && !ctrl[t].Deleted?
      ensures Rehashes(h1) <==> growthLeft == 0 && !ctrl[t].Deleted?
    {
      if t < capacity {
        assert IsTarget(w, capacity, ctrl[..], h1, t);
      }
      forall u: nat ensures IsTarget(w, capacity, ctrl[..], h1, u) ==> t < capacity && u == t {
        if IsTarget(w, capacity, ctrl[..], h1, u) {
          if t < capacity {
            TargetUnique(w, capacity, ctrl[..], h1, t, j, u);
          } else {
            FullNoTarget(w, capacity, ctrl[..], h1, u);
          }
        }
      }
    }

    /** Makes room: rehashes in place when at most half the load limit is in use, grows otherwise. The
        in-place rehash is never asked of a small table, which has no deleted slots. */
    method RehashAndGrowIfNecessary()
      requires Valid() && growthLeft == 0
      modifies this, ctrl, slots
      ensures Valid() && contents == old(contents) && size == old(size) && growthLeft > 0
      ensures (ctrl == old(ctrl) && slots == old(slots)) || (fresh(ctrl) && fresh(slots))
      ensures capacity == if old(HalfUsed()) then 2 * old(capacity) + 1 else old(capacity)
      ensures !old(HalfUsed()) ==> ctrl == old(ctrl) && slots == old(slots)
    {
      SizeOf(Value());
      GrowthOfNext(w, capacity);
      if capacity == 0 {
        Resize(1);
      } else if size <= CapacityToGrowth(w, capacity) / 2 {
        GrowthLeavesRoom(w, capacity);
        DropDeletesWithoutResize();
      } else {
        Resize(capacity * 2 + 1);
      }
    }

    /** The end of `prepare_insert`. */
    method MarkFull(h: HashCode, t: nat, ghost j: nat)
      requires Valid() && t < capacity && ctrl[..][t].EmptyOrDeleted() && FirmAt(w, capacity, ctrl[..], h.h1, t, j)
      requires ctrl[t].Empty? ==> growthLeft > 0
      modifies this`size, this`growthLeft, ctrl
      ensures At(Prepare(h, t), Value()) && growthLeft >= old(growthLeft) - 1
      ensures OnlySlot(capacity, old(ctrl[..]), ctrl[..], slots[..], slots[..], t)
    {
      ghost var v := Value();
      PrepareStep(v, h, t, j);
      size := size + 1;
      growthLeft := growthLeft - if ctrl[t].Empty? then 1 else 0;
      WriteCtrl(t, Full(h.h2));
      assert Value() == Marked(v, h, t);
    }

    /** Marks a slot full for a key with hash `h` that is not in the table, making room if need be. */
    method PrepareInsert(h: HashCode) returns (t: nat)
      requires Valid()
      modifies this, ctrl, slots
      ensures t < capacity && At(Prepare(h, t), Value()) && contents == old(contents)
      ensures (ctrl == old(ctrl) && slots == old(slots)) || (fresh(ctrl) && fresh(slots))
      ensures old(growthLeft) > 0 ==> growthLeft >= old(growthLeft) - 1
      ensures !old(Rehashes(h.h1)) ==> capacity == old(capacity) && !old(ctrl[..])[t].Full?
      ensures !old(Rehashes(h.h1)) ==> OnlySlot(capacity, old(ctrl[..]), ctrl[..], old(slots[..]), slots[..], t)
      ensures old(Rehashes(h.h1)) ==> capacity == if old(HalfUsed()) then 2 * old(capacity) + 1 else old(capacity)
    {
      ghost var j;
      var full;
      t, full, j := FindPlace(h);
      if full {
        t, j := RoomAfterRehash(h);
      }
      MarkFull(h, t, j);
    }

    /** The slot to use, and whether room has to be made first. */
    method FindPlace(h: HashCode) returns (t: nat, full: bool, ghost j: nat)
      requires Valid()
      ensures full == Rehashes(h.h1) && (full ==> growthLeft == 0)
      ensures !full ==> t < capacity && ctrl[..][t].EmptyOrDeleted() && FirmAt(w, capacity, ctrl[..], h.h1, t, j)
      ensures !full && ctrl[t].Empty? ==> growthLeft > 0
    {
      t, j := FindRoom(h);
      full := growthLeft == 0 && !ctrl[t].Deleted?;
      RehashesExact(h.h1, t, j);
    }

    /** Makes room and looks again. */
    method RoomAfterRehash(h: HashCode) returns (t: nat, ghost j: nat)
      requires Valid() && growthLeft == 0
      modifies this, ctrl, slots
      ensures Valid() && contents == old(contents) && growthLeft > 0
      ensures t < capacity && ctrl[..][t].EmptyOrDeleted() && FirmAt(w, capacity, ctrl[..], h.h1, t, j)
      ensures (ctrl == old(ctrl) && slots == old(slots)) || (fresh(ctrl) && fresh(slots))
      ensures capacity == if old(HalfUsed()) then 2 * old(capacity) + 1 else old(capacity)
    {
      RehashAndGrowIfNecessary();
      t, j := FindRoom(h);
    }

    /** `find_first_non_full` between operations: a free slot unless the table has no room at all. */
    method FindRoom(h: HashCode) returns (t: nat, ghost j: nat)
      requires Valid()
      ensures growthLeft >= 0 && t < ctrl.Length && (growthLeft > 0 || ctrl[t].Deleted? ==> t < capacity)
      ensures t < capacity ==> TargetAt(w, capacity, ctrl[..], h.h1, t, j)
      ensures capacity <= t ==> capacity < ctrl.Length && CountFull(ctrl[..], capacity) == capacity
    {
      LoadOf(Value());
      t, j := FindFirstNonFull(h.h1);
    }

    /** `emplace`: leaves a present key alone; says where the key is and whether it was new. Unless room has to be
        made, no other slot changes. The capacity grows, to the next, exactly if room has to be made and more than
        half of the load limit is in use. */
    method Insert(key: K, value: V) returns (r: nat, inserted: bool)
      requires Valid()
      modifies this, ctrl, slots
      ensures Valid() && inserted == (key !in old(contents))
      ensures contents == if key in old(contents) then old(contents) else old(contents)[key := value]
      ensures key in index && r == index[key] && r < capacity && slots[r] == Slot(key, contents[key])
      ensures (ctrl == old(ctrl) && slots == old(slots)) || (fresh(ctrl) && fresh(slots))
      ensures key in old(contents) || !old(Rehashes(hash(key).h1)) ==>
        capacity == old(capacity) && OnlySlot(capacity, old(ctrl[..]), ctrl[..], old(slots[..]), slots[..], r)
      ensures key !in old(contents) && old(Rehashes(hash(key).h1)) ==>
        capacity == if old(HalfUsed()) then 2 * old(capacity) + 1 else old(capacity)
      ensures old(growthLeft) > 0 ==> growthLeft >= old(growthLeft) - 1
    {
      r := Find(key);
      inserted := r == capacity;
      if inserted {
        r := PrepareInsert(hash(key));
        ghost var v := Value();
        EmplaceStep(v, Slot(key, value), r);
        slots[r] := Slot(key, value);
        contents, index := contents[key := value], index[key := r];
        assert Value() == Constructed(v, Slot(key, value), r);
      }
    }

    // ----- inserting with a wrapped growth counter -----

    /** What `rehash(0)` leaves when the elements exceed the load limit. */
    ghost predicate Wrapped()
      reads this, ctrl, slots
    {
      At(Fill, Value()) && growthLeft < 0 && size == |contents| && !IsSmall(w, capacity)
    }

    lemma {:induction false} WrappedSearchable()
      requires Wrapped() && size < capacity
      ensures Searchable()
    {
      Opened(Fill, Value());
    }

    /** `emplace` on such a table: the growth counter is not zero, so that nothing is rehashed, however few empty
        slots are left. */
    method InsertWrapped(key: K, value: V) returns (inserted: bool)
      requires Wrapped() && size < capacity
      modifies this`size, this`growthLeft, this`contents, this`index, ctrl, slots
      ensures Wrapped() && inserted == (key !in old(contents))
      ensures contents == if key in old(contents) then old(contents) else old(contents)[key := value]
    {
      WrappedSearchable();
      var r := Search(key);
      inserted := r == capacity;
      if inserted {
        Place(Slot(key, value));
        ghost var v := Value();
        size, growthLeft := size + 1, growthLeft - 1;
        FillCounters(v, size, growthLeft);
        assert Value() == v.(size := size, growthLeft := growthLeft);
      }
    }

    // ----- capacity on request -----

    /** `destroy_slots` */
    method DestroySlots()
      requires IsWidth(w)
      modifies this
      ensures Valid() && contents == map[] && size == 0 && capacity == 0 && growthLeft == 0
      ensures (ctrl == old(ctrl) && slots == old(slots)) || (fresh(ctrl) && fresh(slots))
    {
      ctrl := new Ctrl[16](i => if i == 0 then Sentinel else Empty);
      slots := new Slot<K, V>[0];
      size, capacity, growthLeft := 0, 0, 0;
      contents, index := map[], map[];
      Closed(Idle, Value());
    }

    /** `rehash(n)`. The elements stay. The table is sound afterwards unless `n` is zero and the elements
        exceed the load limit of the capacity that just holds them; then the growth counter has wrapped. */
    method Rehash(n: nat)
      requires Valid()
      modifies this
      ensures contents == old(contents) && size == old(size)
      ensures (ctrl == old(ctrl) && slots == old(slots)) || (fresh(ctrl) && fresh(slots))
      ensures Valid() <==> n > 0 || old(size) <= CapacityToGrowth(w, NormalizeCapacity(old(size)))
      ensures !Valid() ==> growthLeft < 0 && At(Fill, Value())
      ensures n > 0 ==> capacity == Max(old(capacity), NormalizeCapacity(Max(n, size)))
      ensures n == 0 ==> capacity == if old(size) == 0 then 0 else NormalizeCapacity(size)
      ensures capacity != old(capacity) && capacity > 0 ==> growthLeft == CapacityToGrowth(w, capacity) - size
      ensures n > 0 && capacity == old(capacity) ==> growthLeft == old(growthLeft)
      ensures n == 0 && size > 0 ==> At(Fill, Value()) && growthLeft == CapacityToGrowth(w, capacity) - size
    {
      SizeOf(Value());
      if n == 0 && capacity == 0 {
        return;
      }
      if n == 0 && size == 0 {
        assert contents == map[];
        DestroySlots();
        return;
      }
      var m := NormalizeCapacity(Max(n, size));
      if n == 0 || m > capacity {
        if n > 0 && capacity > 0 {
          GrowthMonotone(w, capacity, m);
        }
        Resize(m);
        if size > CapacityToGrowth(w, capacity) {
          NotSound();
        }
      }
    }

    lemma {:induction false} NotSound()
      requires growthLeft < 0
      ensures !Valid()
    {
      if Valid() {
        SizeOf(Value());
      }
    }

    /** The capacity that `reserve(n)` asks for exceeds the present one. */
    predicate Reallocates(n: nat)
      reads this
    {
      NormalizeCapacity(Max(GrowthToLowerboundCapacity(w, n), size)) > capacity
    }

    /** `reserve(n)`: afterwards the load limit is at least `n`. There is growth left for `n` elements in all
        exactly when the call reallocates, or the deleted marks leave room for them: they use up growth too. */
    method Reserve(n: nat)
      requires Valid()
      modifies this
      ensures contents == old(contents) && size == old(size)
      ensures (ctrl == old(ctrl) && slots == old(slots)) || (fresh(ctrl) && fresh(slots))
      ensures Valid() <==> n > 0 || old(size) <= CapacityToGrowth(w, NormalizeCapacity(old(size)))
      ensures n <= CapacityToGrowth(w, capacity)
      ensures n > 0 ==> capacity == Max(old(capacity), NormalizeCapacity(Max(GrowthToLowerboundCapacity(w, n), size)))
      ensures n == 0 ==> capacity == if size == 0 then 0 else NormalizeCapacity(size)
      ensures growthLeft >= n - size <==>
        old(Reallocates(n)) || n + old(CountDeleted(ctrl[..], capacity)) <= CapacityToGrowth(w, old(capacity))
    {
      LoadOf(Value());
      SizeOf(Value());
      var m := GrowthToLowerboundCapacity(w, n);
      assert m > 0 <==> n > 0;
      Rehash(m);
      if n > 0 || capacity == 0 {
        SizeOf(Value());
      }
      if n > 0 {
        ReserveCapacityLeast(w, n, capacity);
      }
    }

    /** `clear()`: a large array is given up, a small one is emptied in place. */
    method Clear()
      requires Valid()
      modifies this, ctrl
      ensures Valid() && contents == map[]
      ensures (ctrl == old(ctrl) && slots == old(slots)) || (fresh(ctrl) && fresh(slots))
      ensures capacity == if old(size) > 0 && old(capacity) > 127 then 0 else old(capacity)
      ensures old(size) > 0 ==> growthLeft == CapacityToGrowth(w, capacity)
    {
      SizeOf(Value());
      if size == 0 {
        assert contents == map[];
        return;
      }
      if capacity > 127 {
        DestroySlots();
      } else {
        assert ctrl.Length == capacity + w + 1 by { LoadOf(Value()); }
        size, growthLeft := 0, CapacityToGrowth(w, capacity);
        contents, index := map[], map[];
        ResetCtrl();
        FillStarts(Value());
        FillEnds(Value());
      }
    }

    /** `begin()` and `operator++`: the next full slot from `i` on. */
    method NextFull(i: nat) returns (r: nat)
      requires Valid() && i <= capacity
      ensures i <= r <= capacity && (r < capacity ==> ctrl[r].Full?)
      ensures forall p :: i <= p < r ==> !ctrl[p].Full?
    {
      LoadOf(Value());
      r := SkipEmptyOrDeleted(i);
    }

    /** `merge`: moves the elements whose key is new here; the others stay in `src`. */
    method Merge(src: Table<K, V>)
      requires Valid() && src.Valid() && src != this && src.ctrl != ctrl && src.slots != slots
      modifies this, ctrl, slots, src, src.ctrl
      ensures Valid() && contents == old(src.contents) + old(contents)
      ensures src.Valid()
      ensures src.contents == map k | k in old(src.contents) && k in old(contents) :: old(src.contents)[k]
    {
      ghost var v, mine := src.Value(), contents;
      var it := src.NextFull(0);
      MergeStarts(v, mine, it);
      while it != src.capacity
        invariant Valid() && src.Valid() && it <= src.capacity == v.cap && (it < v.cap ==> src.ctrl[it].Full?)
        invariant src.ctrl == old(src.ctrl) && src.slots == old(src.slots) && src.slots[..] == v.slots
        invariant (ctrl == old(ctrl) && slots == old(slots)) || (fresh(ctrl) && fresh(slots))
        invariant SameFrom(src.capacity, src.ctrl[..], v.ctrl, it)
        invariant MergedBelow(v, mine, it, contents, src.contents)
        decreases v.cap - it
      {
        ghost var i, here, there := it, contents, src.contents;
        it := MergeSlot(src, it, v.ctrl);
        MergeVisit(v, mine, i, it, here, there);
      }
      MergeEnds(v, mine, contents, src.contents);
    }

    /** The loop body of `merge` for slot `it` of `src`; the result is the next slot to visit. */
    method MergeSlot(src: Table<K, V>, it: nat, ghost c: seq<Ctrl>) returns (next: nat)
      requires Valid() && src.Valid() && src != this && src.ctrl != ctrl && src.slots != slots
      requires it < src.capacity && src.ctrl[it].Full? && SameFrom(src.capacity, src.ctrl[..], c, it)
      modifies this, ctrl, slots, src, src.ctrl
      ensures Valid() && src.Valid() && src.capacity == old(src.capacity)
      ensures src.ctrl == old(src.ctrl) && src.slots == old(src.slots) && src.slots[..] == old(src.slots[..])
      ensures (ctrl == old(ctrl) && slots == old(slots)) || (fresh(ctrl) && fresh(slots))
      ensures it < next <= src.capacity && (next < src.capacity ==> src.ctrl[next].Full?)
      ensures SameFrom(src.capacity, src.ctrl[..], c, next) && forall p :: it < p < next ==> !c[p].Full?
      ensures var e := src.slots[..][it];
        && contents == (if e.key in old(contents) then old(contents) else old(contents)[e.key := e.value])
        && src.contents == if e.key in old(contents) then old(src.contents) else old(src.contents) - {e.key}
    {
      ghost var sl := src.slots[..];
      var r, inserted := Insert(src.slots[it].key, src.slots[it].value);
      if inserted {
        src.EraseMetaOnly(it);
      }
      assert src.slots[..] == sl && SameFrom(src.capacity, src.ctrl[..], c, it + 1);
      next := src.NextFull(it + 1);
    }
  }

  /** The bytes of the slots from `i` on are as in `d`. */
  ghost predicate SameFrom(cap: nat, c: seq<Ctrl>, d: seq<Ctrl>, i: nat) {
    cap <= |c| == |d| && forall p :: i <= p < cap ==> c[p] == d[p]
  }

  function Max(a: nat, b: nat): nat {
    if a < b then b else a
  }

  // ----- whole runs -----

  datatype Op<K, V> = Lookup(key: K) | Add(key: K, value: V) | Remove(key: K) | MakeRoom(n: nat) | Wipe

  datatype Answer<V> = Missing | Present(value: V) | Added(isNew: bool) | Removed(count: nat) | Done

  /** The effect of an operation on a plain map. */
  function Apply<K(==), V>(m: map<K, V>, op: Op<K, V>): map<K, V> {
    match op
    case Lookup(_) => m
    case Add(k, v) => if k in m then m else m[k := v]
    case Remove(k) => m - {k}
    case MakeRoom(_) => m
    case Wipe => map[]
  }

  /** What an operation answers on a plain map. */
  function AnswerOf<K(==), V>(m: map<K, V>, op: Op<K, V>): Answer<V> {
    match op
    case Lookup(k) => if k in m then Present(m[k]) else Missing
    case Add(k, _) => Added(k !in m)
    case Remove(k) => Removed(if k in m then 1 else 0)
    case MakeRoom(_) => Done
    case Wipe => Done
  }

  function Answers<K(==), V>(m: map<K, V>, ops: seq<Op<K, V>>): seq<Answer<V>>
    decreases |ops|
  {
    if ops == [] then [] else [AnswerOf(m, ops[0])] + Answers(Apply(m, ops[0]), ops[1..])
  }

  /** `reserve(0)` is `rehash(0)`: the elements must not exceed the load limit of the capacity that just holds
      them. Everything else may be called at any time. */
  predicate Allowed<K, V>(width: nat, m: map<K, V>, op: Op<K, V>) {
    op == MakeRoom(0) ==> |m| <= CapacityToGrowth(width, NormalizeCapacity(|m|))
  }

  predicate AllAllowed<K(==), V>(width: nat, m: map<K, V>, ops: seq<Op<K, V>>)
    decreases |ops|
  {
    ops == [] || (Allowed(width, m, ops[0]) && AllAllowed(width, Apply(m, ops[0]), ops[1..]))
  }

  /** The most elements that are held or reserved for at any time of a run. */
  function Demand<K(==), V>(m: map<K, V>, ops: seq<Op<K, V>>): nat
    decreases |ops|
  {
    if ops == [] then |m| else Max(Max(|m|, Asked(ops[0])), Demand(Apply(m, ops[0]), ops[1..]))
  }

  function Asked<K, V>(op: Op<K, V>): nat {
    if op.MakeRoom? then op.n else 0
  }

  /** Every run of the table answers as a plain map does, whatever the hash function and the width. The capacity
      never exceeds 32 slots to seven elements held or reserved for. */
  method Run<K(==,0), V(0)>(width: nat, hasher: K -> HashCode, ops: seq<Op<K, V>>)
      returns (answers: seq<Answer<V>>, capacity: nat)
    requires IsWidth(width) && AllAllowed(width, map[], ops)
    ensures answers == Answers(map[], ops) && 7 * capacity <= 32 * Demand(map[], ops)
  {
    var t := new Table<K, V>(width, hasher);
    answers := [];
    ghost var most := 0;
    assert ops[0..] == ops;
    for i := 0 to |ops|
      invariant t.Valid() && t.w == width && fresh(t) && fresh(t.ctrl) && fresh(t.slots)
      invariant Served(width, ops, i, answers, t.contents, most) && 7 * t.capacity <= 32 * most
    {
      ServedNext(width, ops, i, answers, t.contents, most);
      var a := Step(t, ops[i]);
      answers := answers + [a];
      most := Max(most, Max(Asked(ops[i]), |t.contents|));
    }
    capacity := t.capacity;
  }

  /** After `i` operations: the answers so far, the map from which the others go on, and the most demanded. */
  ghost predicate Served<K, V>(width: nat, ops: seq<Op<K, V>>, i: nat, answers: seq<Answer<V>>, m: map<K, V>,
                               most: nat)
  {
    && i <= |ops| && AllAllowed(width, m, ops[i..]) && |m| <= most
    && answers + Answers(m, ops[i..]) == Answers(map[], ops)
    && Max(most, Demand(m, ops[i..])) == Demand(map[], ops)
  }

  lemma {:induction false} ServedNext<K, V>(width: nat, ops: seq<Op<K, V>>, i: nat, answers: seq<Answer<V>>,
                                            m: map<K, V>, most: nat)
    requires Served(width, ops, i, answers, m, most) && i < |ops|
    ensures Allowed(width, m, ops[i])
    ensures var m' := Apply(m, ops[i]);
      Served(width, ops, i + 1, answers + [AnswerOf(m, ops[i])], m', Max(most, Max(Asked(ops[i]), |m'|)))
  {
    assert ops[i..][0] == ops[i] && ops[i..][1..] == ops[i + 1..];
    var m' := Apply(m, ops[i]);
    var a, rest := AnswerOf(m, ops[i]), Answers(m', ops[i + 1..]);
    assert answers + ([a] + rest) == (answers + [a]) + rest;
    DemandFirst(m', ops[i + 1..]);
  }

  /** An insertion, with what it may do to the capacity. */
  method AddStep<K(==,0), V(0)>(t: Table<K, V>, key: K, value: V) returns (isNew: bool)
    requires t.Valid()
    modifies t, t.ctrl, t.slots
    ensures t.Valid() && t.contents == Apply(old(t.contents), Add(key, value)) && isNew == (key !in old(t.contents))
    ensures (t.ctrl == old(t.ctrl) && t.slots == old(t.slots)) || (fresh(t.ctrl) && fresh(t.slots))
    ensures t.capacity <= old(t.capacity) || 7 * t.capacity <= 32 * |t.contents|
  {
    SizeOf(t.Value());
    if t.HalfUsed() {
      GrowBound(t.w, t.capacity, t.size);
    }
    var r;
    r, isNew := t.Insert(key, value);
  }

  method ReserveStep<K(==,0), V(0)>(t: Table<K, V>, n: nat)
    requires t.Valid() && (n == 0 ==> |t.contents| <= CapacityToGrowth(t.w, NormalizeCapacity(|t.contents|)))
    modifies t
    ensures t.Valid() && t.contents == old(t.contents)
    ensures (t.ctrl == old(t.ctrl) && t.slots == old(t.slots)) || (fresh(t.ctrl) && fresh(t.slots))
    ensures t.capacity <= old(t.capacity) || 7 * t.capacity <= 32 * Max(n, |t.contents|)
  {
    SizeOf(t.Value());
    if n > 0 || t.size > 0 {
      ReserveBound(t.w, n, t.size);
    }
    t.Reserve(n);
  }

  lemma {:induction false} DemandFirst<K, V>(m: map<K, V>, ops: seq<Op<K, V>>)
    ensures |m| <= Demand(m, ops)
  {
  }

  method Step<K(==,0), V(0)>(t: Table<K, V>, op: Op<K, V>) returns (a: Answer<V>)
    requires t.Valid() && Allowed(t.w, t.contents, op)
    modifies t, t.ctrl, t.slots
    ensures t.Valid() && t.contents == Apply(old(t.contents), op) && a == AnswerOf(old(t.contents), op)
    ensures (t.ctrl == old(t.ctrl) && t.slots == old(t.slots)) || (fresh(t.ctrl) && fresh(t.slots))
    ensures t.capacity <= old(t.capacity) || 7 * t.capacity <= 32 * Max(Asked(op), |t.contents|)
  {
    match op
    case Lookup(k) =>
      var r := t.Find(k);
      a := if r == t.capacity then Missing else Present(t.slots[r].value);
    case Add(k, v) =>
      var isNew := AddStep(t, k, v);
      a := Added(isNew);
    case Remove(k) =>
      var n := t.Erase(k);
      a := Removed(n);
    case MakeRoom(n) =>
      ReserveStep(t, n);
      a := Done;
    case Wipe =>
      t.Clear();
      a := Done;
  }

  /** Reserves room for `elements` and inserts them. If the call reallocates, or the deleted marks leave room for
      them, every element stays in the slot that its insertion named: nothing is rehashed on the way. */
  method InsertReserved<K(==,0), V(0)>(t: Table<K, V>, elements: seq<Slot<K, V>>) returns (places: seq<nat>)
    requires t.Valid()
    requires var n := t.size + |elements|;
      t.Reallocates(n) || n + CountDeleted(t.ctrl[..], t.capacity) <= CapacityToGrowth(t.w, t.capacity)
    modifies t, t.ctrl, t.slots
    ensures t.Valid() && |places| == |elements|
    ensures AllInPlace(t.capacity, t.ctrl[..], t.slots[..], places, elements)
  {
    SizeOf(t.Value());
    t.Reserve(t.size + |elements|);
    places := InsertWithin(t, elements);
  }

  /** Insertions for all of which there is growth left. */
  method InsertWithin<K(==,0), V(0)>(t: Table<K, V>, elements: seq<Slot<K, V>>) returns (places: seq<nat>)
    requires t.Valid() && t.growthLeft >= |elements|
    modifies t, t.ctrl, t.slots
    ensures t.Valid() && |places| == |elements|
    ensures AllInPlace(t.capacity, t.ctrl[..], t.slots[..], places, elements)
  {
    places := [];
    for i := 0 to |elements|
      invariant t.Valid() && |places| == i && t.growthLeft >= |elements| - i
      invariant (t.ctrl == old(t.ctrl) && t.slots == old(t.slots)) || (fresh(t.ctrl) && fresh(t.slots))
      invariant AllInPlace(t.capacity, t.ctrl[..], t.slots[..], places, elements[..i])
    {
      var r := InsertBeside(t, elements[i], places, elements[..i]);
      assert elements[..i] + [elements[i]] == elements[..i + 1];
      places := places + [r];
    }
    assert elements[..|elements|] == elements;
  }

  /** One insertion with growth left: earlier elements stay in place. */
  method InsertBeside<K(==,0), V(0)>(t: Table<K, V>, e: Slot<K, V>,
                                    ghost places: seq<nat>, ghost earlier: seq<Slot<K, V>>)
    returns (r: nat)
    requires t.Valid() && t.growthLeft > 0 && AllInPlace(t.capacity, t.ctrl[..], t.slots[..], places, earlier)
    modifies t, t.ctrl, t.slots
    ensures t.Valid() && t.growthLeft >= old(t.growthLeft) - 1
    ensures (t.ctrl == old(t.ctrl) && t.slots == old(t.slots)) || (fresh(t.ctrl) && fresh(t.slots))
    ensures AllInPlace(t.capacity, t.ctrl[..], t.slots[..], places + [r], earlier + [e])
  {
    ghost var c, sl, cap := t.ctrl[..], t.slots[..], t.capacity;
    var isNew;
    r, isNew := t.Insert(e.key, e.value);
    InsertedFull(t.Value(), e.key);
    OneMoreInPlace(cap, c, t.ctrl[..], sl, t.slots[..], places, earlier, r, e);
  }

  /** The slot is full and holds the key. */
  ghost predicate InPlaceOf<K, V>(cap: nat, c: seq<Ctrl>, slots: seq<Slot<K, V>>, p: nat, key: K) {
    p < cap <= |c| && cap <= |slots| && c[p].Full? && slots[p].key == key
  }

  ghost predicate AllInPlace<K, V>(cap: nat, c: seq<Ctrl>, slots: seq<Slot<K, V>>, places: seq<nat>,
                                   elements: seq<Slot<K, V>>)
  {
    |places| == |elements| && forall i :: 0 <= i < |places| ==> InPlaceOf(cap, c, slots, places[i], elements[i].key)
  }

  lemma {:induction false} OneMoreInPlace<K, V>(cap: nat, c: seq<Ctrl>, c': seq<Ctrl>, slots: seq<Slot<K, V>>,
                                                slots': seq<Slot<K, V>>, places: seq<nat>,
                                                elements: seq<Slot<K, V>>, r: nat, e: Slot<K, V>)
    requires AllInPlace(cap, c, slots, places, elements) && OnlySlot(cap, c, c', slots, slots', r)
    requires InPlaceOf(cap, c', slots', r, e.key)
    ensures AllInPlace(cap, c', slots', places + [r], elements + [e])
  {
    forall i | 0 <= i < |places| ensures InPlaceOf(cap, c', slots', places[i], elements[i].key) {
      assert InPlaceOf(cap, c, slots, places[i], elements[i].key);
    }
  }

  lemma {:induction false} InsertedFull<K, V>(v: View<K, V>, key: K)
    requires At(Idle, v) && key in v.index
    ensures v.index[key] < v.cap && v.ctrl[v.index[key]].Full?
  {
    Opened(Idle, v);
    assert KeyPlaced(v.ctrl, v.slots, false, v.index, v.contents, key);
  }

  /** The keys are numbers below `n`, and as many as that. */
  ghost predicate Numbered(m: map<nat, nat>, n: nat) {
    |m| == n && (n > 0 ==> 0 in m) && forall k :: k in m ==> k < n
  }

  /** Inserts the numbers below `n` into an empty table. */
  method InsertNumbers(t: Table<nat, nat>, n: nat)
    requires t.Valid() && t.contents == map[]
    modifies t, t.ctrl, t.slots
    ensures t.Valid() && Numbered(t.contents, n)
    ensures (t.ctrl == old(t.ctrl) && t.slots == old(t.slots)) || (fresh(t.ctrl) && fresh(t.slots))
    ensures old(t.growthLeft) >= n ==> t.capacity == old(t.capacity)
  {
    for i := 0 to n
      invariant t.Valid() && Numbered(t.contents, i)
      invariant (t.ctrl == old(t.ctrl) && t.slots == old(t.slots)) || (fresh(t.ctrl) && fresh(t.slots))
      invariant old(t.growthLeft) >= n ==> t.capacity == old(t.capacity) && t.growthLeft >= old(t.growthLeft) - i
    {
      var r, isNew := t.Insert(i, i);
    }
  }

  /** A table of fifteen slots, filled to its load limit. */
  method Fourteen(hasher: nat -> HashCode) returns (t: Table<nat, nat>)
    ensures fresh(t) && fresh(t.ctrl) && fresh(t.slots)
    ensures t.Valid() && t.w == 8 && t.capacity == 15 && Numbered(t.contents, 14)
  {
    t := new Table(8, hasher);
    t.Reserve(14);
    FifteenSlots();
    InsertNumbers(t, 14);
  }

  /** Deleted marks in the way: fourteen elements fill a table of fifteen slots to its load limit, and erasing one
      of them leaves a mark. `reserve(14)` then does nothing, and there is no growth left for the fourteenth. */
  method ReserveFallsShort(hasher: nat -> HashCode) returns (t: Table<nat, nat>)
    ensures t.Valid() && t.size == 13 && t.growthLeft == 0
  {
    t := Fourteen(hasher);
    LeaveMark(t);
    FifteenSlots();
    t.Reserve(14);
    SizeOf(t.Value());
  }

  method LeaveMark(t: Table<nat, nat>)
    requires t.Valid() && t.w == 8 && t.capacity == 15 && Numbered(t.contents, 14)
    modifies t, t.ctrl
    ensures t.Valid() && t.capacity == 15 && t.size == 13 && CountDeleted(t.ctrl[..], 15) == 1
    ensures !t.Reallocates(14) && t.growthLeft == 0
  {
    FifteenSlots();
    LoadOf(t.Value());
    var s := t.Find(0);
    SingleEmpty(8, 15, t.ctrl[..], s);
    t.EraseMetaOnly(s);
    LoadOf(t.Value());
  }

  lemma {:induction false} FifteenSlots()
    ensures GrowthToLowerboundCapacity(8, 14) == 15 == NormalizeCapacity(15) && CapacityToGrowth(8, 15) == 14
  {
    assert NormalizeCapacity(15) == 2 * NormalizeCapacity(7) + 1;
    assert NormalizeCapacity(7) == 2 * NormalizeCapacity(3) + 1;
  }

  /** `rehash(0)` on a table of seven elements (eight control bytes to a group), or fifteen (sixteen to a
      group), chooses a capacity whose load limit they exceed. */
  lemma {:induction false} RehashZeroOverfills()
    ensures CapacityToGrowth(8, NormalizeCapacity(7)) < 7
    ensures CapacityToGrowth(16, NormalizeCapacity(15)) < 15
  {
    assert NormalizeCapacity(7) == 2 * NormalizeCapacity(3) + 1;
    assert NormalizeCapacity(15) == 2 * NormalizeCapacity(7) + 1;
  }

  /** After `rehash(0)` the search for a key that is not there never ends, exactly for the sizes that are valid
      capacities of large tables. */
  method RehashZero<K(==,0), V(0)>(t: Table<K, V>)
    requires t.Valid()
    modifies t
    ensures t.contents == old(t.contents) && t.size == old(t.size)
    ensures forall key :: key !in t.contents ==>
      (NeverEnds(t.Value(), key) <==> IsValidCapacity(t.size) && !IsSmall(t.w, t.size))
  {
    SizeOf(t.Value());
    t.Rehash(0);
    forall key | key !in t.contents
      ensures NeverEnds(t.Value(), key) <==> IsValidCapacity(t.size) && !IsSmall(t.w, t.size)
    {
      if t.size > 0 {
        if IsValidCapacity(t.size) {
          NormalizeCapacityLeast(t.size, t.size);
        }
        FilledNeverEnds(t.Value(), key);
      } else {
        EmptyNeverEnds(t.Value(), key);
      }
    }
  }

  /** A map with more elements; present keys are left alone. */
  function WithAll<K(==), V>(m: map<K, V>, elements: seq<Slot<K, V>>): map<K, V> {
    if elements == [] then m
    else
      var e, rest := elements[|elements| - 1], WithAll(m, elements[..|elements| - 1]);
      if e.key in rest then rest else rest[e.key := e.value]
  }

  /** When the elements exceed the load limit after `rehash(0)`, insertions fill the remaining slots without any
      rehash. The search for a key that is not there never ends exactly when the last of them is full. */
  method InsertAfterRehashZero<K(==,0), V(0)>(t: Table<K, V>, elements: seq<Slot<K, V>>)
    requires t.Valid() && CapacityToGrowth(t.w, NormalizeCapacity(t.size)) < t.size
    requires t.size + |elements| <= NormalizeCapacity(t.size)
    modifies t, t.ctrl, t.slots
    ensures t.capacity == NormalizeCapacity(old(t.size)) && t.contents == WithAll(old(t.contents), elements)
    ensures forall key :: key !in t.contents ==> (NeverEnds(t.Value(), key) <==> |t.contents| == t.capacity)
  {
    SizeOf(t.Value());
    GrowthLeavesRoom(t.w, NormalizeCapacity(t.size));
    t.Rehash(0);
    ghost var ctrl, slots, capacity := t.ctrl, t.slots, t.capacity;
    for i := 0 to |elements|
      invariant t.Wrapped() && t.ctrl == ctrl && t.slots == slots && t.capacity == capacity
      invariant t.contents == WithAll(old(t.contents), elements[..i]) && t.size <= old(t.size) + i
    {
      assert elements[..i + 1][..i] == elements[..i];
      var _ := t.InsertWrapped(elements[i].key, elements[i].value);
    }
    assert elements[..|elements|] == elements;
    forall key | key !in t.contents ensures NeverEnds(t.Value(), key) <==> |t.contents| == t.capacity {
      FilledNeverEnds(t.Value(), key);
    }
  }

  lemma {:induction false} EmptyNeverEnds<K, V>(v: View<K, V>, key: K)
    requires At(Idle, v) && v.cap == 0
    ensures !NeverEnds(v, key)
  {
    Opened(Idle, v);
    SmallEnds(v, key);
  }

  /** Such a table comes about by inserting as many elements and calling `rehash(0)`: its growth counter has
      wrapped, and no search for another key ends. */
  method RehashZeroUnsound(width: nat, hasher: nat -> HashCode) returns (t: Table<nat, nat>)
    requires IsWidth(width)
    ensures t.size == width - 1 && t.growthLeft < 0 && !t.Valid()
    ensures forall key :: key !in t.contents ==> NeverEnds(t.Value(), key)
  {
    t := new Table(width, hasher);
    InsertNumbers(t, width - 1);
    SizeOf(t.Value());
    RehashZeroOverfills();
    t.Rehash(0);
    WidthLessOne(width);
    NormalizeCapacityLeast(t.size, t.size);
    forall key | key !in t.contents ensures NeverEnds(t.Value(), key) {
      FilledNeverEnds(t.Value(), key);
    }
  }

  lemma {:induction false} WidthLessOne(w: nat)
    requires IsWidth(w)
    ensures IsValidCapacity(w - 1) && !IsSmall(w, w - 1)
  {
    WidthIsPow2(w);
  }
}
