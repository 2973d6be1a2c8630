/** The pool-update protocol of the blockchain explorer.

    Any number of threads run `poolChanged`; the node answers each request once, later, on some idle
    thread. Every atomic access, lock operation and request is one action, and a compare-and-exchange
    may fail spuriously. A run is any sequence of enabled actions. */
module PoolUpdate {

  type Thread = nat
  type RequestId = nat
  type Hash = nat
  type Ticket = nat

  /** `PoolUpdateGuard::State` */
  datatype Guard = NotUpdating | Updating | UpdateRequired

  datatype Option<T> = None | Some(value: T)

  /** Where a thread is. `rerun` marks the call of `poolChanged` made by the end handler. */
  datatype Pc =
    | Idle
    | ReadSync(rerun: bool)
    | ReadObservers(rerun: bool)
    | BeginLoad(rerun: bool)
    | BeginTry(seen: Guard, rerun: bool)
    | WantLock(rerun: bool)                          // the update has begun
    | SendDiff(rerun: bool)                          // holds the mutex from here to Leave or Abort
    | Leave                                          // nothing left but to unlock
    | Abort                                          // sending threw: unlock, then the handler runs
    | DiffWantLock(asked: set<Hash>, incoming: seq<Hash>, gone: seq<Hash>)
    | DiffApply(asked: set<Hash>, incoming: seq<Hash>, gone: seq<Hash>)
    | SendDetails(added: seq<Hash>, removed: seq<Hash>)
    | EndLoad                                        // the end handler
    | EndTry(seen: Guard)

  /** A request the node has not answered yet, with what it was sent. */
  datatype Request =
    | DiffRequest(asked: set<Hash>)
    | DetailsRequest(added: seq<Hash>, removed: seq<Hash>)

  /** The new and removed hashes one update computed. */
  datatype Delta = Delta(added: seq<Hash>, removed: seq<Hash>)

  // ----- history, for stating the properties -----

  /** Who is responsible for ending the open update. */
  datatype Owner = Nobody | ByThread(thread: Thread) | ByRequest(id: RequestId)

  /** Where a refused notification is remembered. */
  datatype Carrier = InGuard | InRerun(thread: Thread)

  datatype World = World(
    guard: Guard,
    synchronized: bool,
    observers: nat,
    mutex: Option<Thread>,
    known: set<Hash>,
    threads: map<Thread, Pc>,
    requests: map<RequestId, Request>,
    terminated: bool,                  // `std::terminate` has been called
    // history
    owner: Owner,
    begun: nat,
    ended: nat,
    tickets: nat,                      // refused notifications are numbered from zero
    carried: map<Ticket, Carrier>,     // those still waiting for an update
    served: set<Ticket>,               // those after which an update has begun
    dropped: set<Ticket>,              // those whose re-run found nothing to do
    log: seq<Delta>,                   // every delta computed
    told: seq<nat>,                    // the positions in the log of those sent to the observers
    lost: set<nat>)                    // and of those that will never be

  const INITIAL :=
    World(NotUpdating, false, 0, None, {}, map[], map[], false, Nobody, 0, 0, 0, map[], {}, {}, [], [], {})

  function PcOf(w: World, t: Thread): Pc {
    if t in w.threads then w.threads[t] else Idle
  }

  function At(w: World, t: Thread, pc: Pc): World {
    w.(threads := w.threads[t := pc])
  }

  // ----- applying a symmetric difference -----

  function Elements(s: seq<Hash>): set<Hash> {
    set h | h in s
  }

  /** The hashes the loop over the new transactions inserts, in order. */
  function Added(known: set<Hash>, incoming: seq<Hash>): seq<Hash>
    decreases |incoming|
  {
    if incoming == [] then []
    else (if incoming[0] in known then [] else [incoming[0]]) + Added(known + {incoming[0]}, incoming[1..])
  }

  /** The hashes the loop over the removed transactions erases, in order. */
  function Removed(known: set<Hash>, gone: seq<Hash>): seq<Hash>
    decreases |gone|
  {
    if gone == [] then []
    else (if gone[0] in known then [gone[0]] else []) + Removed(known - {gone[0]}, gone[1..])
  }

  ghost predicate NoRepeat(s: seq<Hash>) {
    forall i, j :: 0 <= i < j < |s| ==> s[i] != s[j]
  }

  lemma {:induction false} ElementsCons(s: seq<Hash>)
    requires s != []
    ensures Elements(s) == {s[0]} + Elements(s[1..])
  {
    assert s == [s[0]] + s[1..];
  }

  lemma {:induction false} NoRepeatCons(h: Hash, s: seq<Hash>)
    requires NoRepeat(s) && h !in s
    ensures NoRepeat([h] + s) && Elements([h] + s) == {h} + Elements(s)
  {
  }

  /** Exactly the hashes that were not known are inserted, each once. */
  lemma {:induction false} AddedMeaning(known: set<Hash>, incoming: seq<Hash>)
    ensures Elements(Added(known, incoming)) == Elements(incoming) - known && NoRepeat(Added(known, incoming))
    decreases |incoming|
  {
    if incoming == [] {
    } else {
      var h := incoming[0];
      AddedMeaning(known + {h}, incoming[1..]);
      ElementsCons(incoming);
      assert h !in Elements(Added(known + {h}, incoming[1..]));
      if h in known {
        assert [] + Added(known + {h}, incoming[1..]) == Added(known + {h}, incoming[1..]);
      } else {
        NoRepeatCons(h, Added(known + {h}, incoming[1..]));
      }
    }
  }

  /** Exactly the hashes that were known are erased, each once. */
  lemma {:induction false} RemovedMeaning(known: set<Hash>, gone: seq<Hash>)
    ensures Elements(Removed(known, gone)) == Elements(gone) * known && NoRepeat(Removed(known, gone))
    decreases |gone|
  {
    if gone == [] {
    } else {
      var h := gone[0];
      RemovedMeaning(known - {h}, gone[1..]);
      ElementsCons(gone);
      assert h !in Elements(Removed(known - {h}, gone[1..]));
      if h in known {
        NoRepeatCons(h, Removed(known - {h}, gone[1..]));
      } else {
        assert [] + Removed(known - {h}, gone[1..]) == Removed(known - {h}, gone[1..]);
      }
    }
  }

  /** With `i` hashes dealt with: what is to come makes of `k` and `added` what the whole makes of `known`. */
  ghost predicate InsertedTo(known: set<Hash>, incoming: seq<Hash>, i: nat, k: set<Hash>, added: seq<Hash>) {
    && i <= |incoming| && known + Elements(incoming) == k + Elements(incoming[i..])
    && Added(known, incoming) == added + Added(k, incoming[i..])
  }

  lemma {:induction false} InsertedNext(known: set<Hash>, incoming: seq<Hash>, i: nat, k: set<Hash>, added: seq<Hash>)
    requires InsertedTo(known, incoming, i, k, added) && i < |incoming|
    ensures var h := incoming[i];
      InsertedTo(known, incoming, i + 1, k + {h}, if h in k then added else added + [h])
  {
    var h, rest := incoming[i], incoming[i + 1..];
    ElementsCons(incoming[i..]);
    assert incoming[i..][1..] == rest;
    assert k + Elements(incoming[i..]) == k + {h} + Elements(rest);
    assert added + ([h] + Added(k + {h}, rest)) == (added + [h]) + Added(k + {h}, rest);
    assert [] + Added(k + {h}, rest) == Added(k + {h}, rest);
  }

  /** The first loop of the first callback. */
  method InsertAll(known: set<Hash>, incoming: seq<Hash>) returns (k: set<Hash>, added: seq<Hash>)
    ensures k == known + Elements(incoming) && added == Added(known, incoming)
  {
    k, added := known, [];
    var i := 0;
    while i < |incoming|
      invariant InsertedTo(known, incoming, i, k, added)
    {
      InsertedNext(known, incoming, i, k, added);
      if incoming[i] !in k {
        added := added + [incoming[i]];
      }
      k := k + {incoming[i]};
      i := i + 1;
    }
  }

  ghost predicate ErasedTo(known: set<Hash>, gone: seq<Hash>, i: nat, k: set<Hash>, removed: seq<Hash>) {
    && i <= |gone| && known - Elements(gone) == k - Elements(gone[i..])
    && Removed(known, gone) == removed + Removed(k, gone[i..])
  }

  lemma {:induction false} ErasedNext(known: set<Hash>, gone: seq<Hash>, i: nat, k: set<Hash>, removed: seq<Hash>)
    requires ErasedTo(known, gone, i, k, removed) && i < |gone|
    ensures var h := gone[i];
      ErasedTo(known, gone, i + 1, k - {h}, if h in k then removed + [h] else removed)
  {
    var h, rest := gone[i], gone[i + 1..];
    ElementsCons(gone[i..]);
    assert gone[i..][1..] == rest;
    assert k - Elements(gone[i..]) == k - {h} - Elements(rest);
    assert removed + ([h] + Removed(k - {h}, rest)) == (removed + [h]) + Removed(k - {h}, rest);
    assert [] + Removed(k - {h}, rest) == Removed(k - {h}, rest);
  }

  /** The second loop of the first callback. */
  method EraseAll(known: set<Hash>, gone: seq<Hash>) returns (k: set<Hash>, removed: seq<Hash>)
    ensures k == known - Elements(gone) && removed == Removed(known, gone)
  {
    k, removed := known, [];
    var i := 0;
    while i < |gone|
      invariant ErasedTo(known, gone, i, k, removed)
    {
      ErasedNext(known, gone, i, k, removed);
      if gone[i] in k {
        removed := removed + [gone[i]];
        k := k - {gone[i]};
      } else {
        assert k - {gone[i]} == k;
      }
      i := i + 1;
    }
  }

  // ----- the actions -----

  datatype Action =
    | Notify(t: Thread)
    | CheckSynchronized(t: Thread)
    | CheckObservers(t: Thread)
    | LoadBegin(t: Thread)
    | TryBegin(t: Thread, spurious: bool)
    | TakeMutex(t: Thread)
    | RequestDiff(t: Thread, id: RequestId, sent: bool)
    | Unlock(t: Thread)
    | AnswerDiff(t: Thread, id: RequestId, failed: bool, incoming: seq<Hash>, gone: seq<Hash>)
    | Apply(t: Thread)
    | RequestDetails(t: Thread, id: RequestId, sent: bool)
    | AnswerDetails(t: Thread, id: RequestId, failed: bool)
    | LoadEnd(t: Thread)
    | TryEnd(t: Thread, spurious: bool)
    | SetSynchronized(value: bool)
    | SetObservers(count: nat)
    | Borrow(t: Thread)                // some other member locks the same mutex

  predicate Enabled(w: World, a: Action) {
    !w.terminated &&
    match a
    case Notify(t) => PcOf(w, t).Idle?
    case CheckSynchronized(t) => PcOf(w, t).ReadSync?
    case CheckObservers(t) => PcOf(w, t).ReadObservers?
    case LoadBegin(t) => PcOf(w, t).BeginLoad?
    case TryBegin(t, _) => PcOf(w, t).BeginTry?
    case TakeMutex(t) => (PcOf(w, t).WantLock? || PcOf(w, t).DiffWantLock?) && w.mutex.None?
    case RequestDiff(t, id, _) => PcOf(w, t).SendDiff? && id !in w.requests
    case Unlock(t) => PcOf(w, t).Leave? || PcOf(w, t).Abort?
    case AnswerDiff(t, id, _, _, _) => PcOf(w, t).Idle? && id in w.requests && w.requests[id].DiffRequest?
    case Apply(t) => PcOf(w, t).DiffApply?
    case RequestDetails(t, id, _) => PcOf(w, t).SendDetails? && id !in w.requests
    case AnswerDetails(t, id, _) => PcOf(w, t).Idle? && id in w.requests && w.requests[id].DetailsRequest?
    case LoadEnd(t) => PcOf(w, t).EndLoad?
    case TryEnd(t, _) => PcOf(w, t).EndTry?
    case SetSynchronized(_) => true
    case SetObservers(_) => true
    case Borrow(t) => PcOf(w, t).Idle? && w.mutex.None?
  }

  /** The refused call is counted, and whatever thread `t` was re-running for is left to the guard. */
  function Refused(w: World, t: Thread): World {
    w.(tickets := w.tickets + 1,
       carried := (map k | k in w.carried ::
                   if w.carried[k] == InRerun(t) then InGuard else w.carried[k])[w.tickets := InGuard])
  }

  /** The call of thread `t` returns before asking for an update. */
  function NothingToDo(w: World, t: Thread): World {
    At(w, t, Idle).(
      carried := map k | k in w.carried && w.carried[k] != InRerun(t) :: w.carried[k],
      dropped := w.dropped + set k | k in w.carried && w.carried[k] == InRerun(t))
  }

  /** `beginUpdate` has seen `seen`; at `UPDATE_REQUIRED` it can only refuse. */
  function BeginSaw(w: World, t: Thread, seen: Guard, rerun: bool): World {
    if seen.UpdateRequired? then At(Refused(w, t), t, BeginTry(seen, rerun)) else At(w, t, BeginTry(seen, rerun))
  }

  function Begun(w: World, t: Thread): World
    requires PcOf(w, t).BeginTry?
  {
    At(w, t, WantLock(PcOf(w, t).rerun)).(guard := Updating, begun := w.begun + 1, owner := ByThread(t),
                        served := w.served + w.carried.Keys, carried := map[])
  }

  function TryBeginStep(w: World, t: Thread, spurious: bool): World
    requires PcOf(w, t).BeginTry?
  {
    var pc := PcOf(w, t);
    match pc.seen
    case NotUpdating =>
      if w.guard.NotUpdating? && !spurious then Begun(w, t) else BeginSaw(w, t, w.guard, pc.rerun)
    case Updating =>
      if w.guard.Updating? && !spurious then At(Refused(w, t), t, Idle).(guard := UpdateRequired)
      else BeginSaw(w, t, w.guard, pc.rerun)
    case UpdateRequired => At(w, t, Idle)
  }

  /** `endUpdate` succeeds: `again` is what it returns. */
  function Ended(w: World, t: Thread, again: bool): World {
    At(w, t, if again then ReadSync(true) else Idle).(
      guard := NotUpdating, ended := w.ended + 1, owner := Nobody,
      carried := if again then map k | k in w.carried :: if w.carried[k].InGuard? then InRerun(t) else w.carried[k]
                 else w.carried)
  }

  function TryEndStep(w: World, t: Thread, spurious: bool): World
    requires PcOf(w, t).EndTry?
  {
    var seen := PcOf(w, t).seen;
    if w.guard == seen && !spurious then Ended(w, t, seen.UpdateRequired?) else At(w, t, EndTry(w.guard))
  }

  function Sent(w: World, t: Thread, id: RequestId, request: Request, sent: bool): World {
    if sent then At(w, t, Leave).(requests := w.requests[id := request], owner := ByRequest(id)) else At(w, t, Abort)
  }

  function Answered(w: World, t: Thread, id: RequestId, pc: Pc): World {
    At(w, t, pc).(requests := w.requests - {id}, owner := ByThread(t))
  }

  function ApplyStep(w: World, t: Thread): World
    requires PcOf(w, t).DiffApply?
  {
    var pc := PcOf(w, t);
    var grown := w.known + Elements(pc.incoming);
    var added, removed := Added(w.known, pc.incoming), Removed(grown, pc.gone);
    At(w, t, SendDetails(added, removed)).(known := grown - Elements(pc.gone), log := w.log + [Delta(added, removed)])
  }

  const NOTHING := Delta([], [])

  /** The position of the delta computed last. */
  function Last(w: World): nat {
    if w.log == [] then 0 else |w.log| - 1
  }

  function Do(w: World, a: Action): World
    requires Enabled(w, a)
  {
    match a
    case Notify(t) => At(w, t, ReadSync(false))
    case CheckSynchronized(t) =>
      if w.synchronized then At(w, t, ReadObservers(PcOf(w, t).rerun)) else NothingToDo(w, t)
    case CheckObservers(t) =>
      if w.observers != 0 then At(w, t, BeginLoad(PcOf(w, t).rerun)) else NothingToDo(w, t)
    case LoadBegin(t) => BeginSaw(w, t, w.guard, PcOf(w, t).rerun)
    case TryBegin(t, spurious) => TryBeginStep(w, t, spurious)
    case TakeMutex(t) =>
      var pc := PcOf(w, t);
      At(w, t, if pc.WantLock? then SendDiff(pc.rerun)
               else DiffApply(pc.asked, pc.incoming, pc.gone)).(mutex := Some(t))
    case RequestDiff(t, id, sent) =>
      // a re-run is called by a destructor, and an exception must not leave that
      Sent(w, t, id, DiffRequest(w.known), sent).(terminated := !sent && PcOf(w, t).rerun)
    case Unlock(t) => At(w, t, if PcOf(w, t).Leave? then Idle else EndLoad).(mutex := None)
    case AnswerDiff(t, id, failed, incoming, gone) =>
      Answered(w, t, id, if failed then EndLoad else DiffWantLock(w.requests[id].asked, incoming, gone))
    case Apply(t) => ApplyStep(w, t)
    case RequestDetails(t, id, sent) =>
      var added, removed := PcOf(w, t).added, PcOf(w, t).removed;
      Sent(w, t, id, DetailsRequest(added, removed), sent).(
        lost := if !sent && Delta(added, removed) != NOTHING then w.lost + {Last(w)} else w.lost)
    case AnswerDetails(t, id, failed) =>
      var some := Delta(w.requests[id].added, w.requests[id].removed) != NOTHING;
      Answered(w, t, id, EndLoad).(told := if some && !failed then w.told + [Last(w)] else w.told,
                                   lost := if some && failed then w.lost + {Last(w)} else w.lost)
    case LoadEnd(t) => At(w, t, EndTry(w.guard))
    case TryEnd(t, spurious) => TryEndStep(w, t, spurious)
    case SetSynchronized(value) => w.(synchronized := value)
    case SetObservers(count) => w.(observers := count)
    case Borrow(t) => At(w, t, Leave).(mutex := Some(t))
  }

  // ----- the invariant -----

  /** The thread must still see to it that the open update ends. */
  predicate Responsible(pc: Pc) {
    pc.WantLock? || pc.SendDiff? || pc.Abort? || pc.DiffWantLock? || pc.DiffApply?
    || pc.SendDetails? || pc.EndLoad? || pc.EndTry?
  }

  predicate Locks(pc: Pc) {
    pc.SendDiff? || pc.Leave? || pc.Abort? || pc.DiffApply? || pc.SendDetails?
  }

  /** The thread is re-running `poolChanged` and has not been refused. */
  predicate Rerunning(pc: Pc) {
    ((pc.ReadSync? || pc.ReadObservers? || pc.BeginLoad?) && pc.rerun)
    || (pc.BeginTry? && pc.rerun && !pc.seen.UpdateRequired?)
  }

  /** The delta being delivered is the last one computed, and the observers have not been told of it. */
  predicate LastDelta(w: World, added: seq<Hash>, removed: seq<Hash>) {
    && w.log != [] && w.log[|w.log| - 1] == Delta(added, removed)
    && (w.told == [] || w.told[|w.told| - 1] < |w.log| - 1) && |w.log| - 1 !in w.lost
  }

  ghost predicate ThreadOk(w: World, t: Thread) {
    var pc := PcOf(w, t);
    && (Responsible(pc) <==> w.owner == ByThread(t))
    && (Locks(pc) <==> w.mutex == Some(t))
    && (pc.EndTry? ==> !pc.seen.NotUpdating?)
    && (pc.DiffWantLock? ==> pc.asked == w.known)
    && (pc.DiffApply? ==> pc.asked == w.known)
    && (pc.SendDetails? ==> LastDelta(w, pc.added, pc.removed))
  }

  ghost predicate RequestOk(w: World, id: RequestId) {
    && (id in w.requests <==> w.owner == ByRequest(id))
    && (id in w.requests ==>
          match w.requests[id]
          case DiffRequest(asked) => asked == w.known
          case DetailsRequest(added, removed) => LastDelta(w, added, removed))
  }

  /** A refused notification is represented until an update begins or a re-run finds nothing to do. */
  ghost predicate TicketOk(w: World, k: Ticket) {
    && (k in w.carried ==> k !in w.served && k !in w.dropped)
    && (k in w.carried || k in w.served || k in w.dropped <==> k < w.tickets)
    && !(k in w.served && k in w.dropped)
    && (k in w.carried ==>
          match w.carried[k]
          case InGuard => w.guard.UpdateRequired?
          case InRerun(t) => Rerunning(PcOf(w, t)))
  }

  ghost predicate CycleOk(w: World) {
    && (w.guard.NotUpdating? <==> w.owner.Nobody?)
    && w.begun == w.ended + (if w.owner.Nobody? then 0 else 1)
  }

  ghost predicate Inv(w: World) {
    && CycleOk(w)
    && (forall t :: ThreadOk(w, t))
    && (forall id :: RequestOk(w, id))
    && (forall k :: TicketOk(w, k))
  }

  lemma {:induction false} InitialHolds()
    ensures Inv(INITIAL)
  {
  }

  // ----- what one thread's action may change -----

  predicate SameData(w: World, v: World) {
    w.known == v.known && w.log == v.log && w.told == v.told && w.lost == v.lost
  }

  /** Requests change only by `t` sending one while it is responsible, or receiving the answer. */
  ghost predicate RequestsMoved(w: World, v: World, t: Thread) {
    || (v.requests == w.requests && (w.owner == v.owner || (!w.owner.ByRequest? && !v.owner.ByRequest?))
        && (SameData(w, v) || w.owner == ByThread(t)))
    || (w.owner == ByThread(t) && v.owner.ByRequest? && v.owner.id !in w.requests
        && v.requests.Keys == w.requests.Keys + {v.owner.id} && RequestOk(v, v.owner.id))
    || (w.owner.ByRequest? && v.owner == ByThread(t) && v.requests == w.requests - {w.owner.id})
  }

  predicate Others(w: World, v: World, t: Thread) {
    && (w.owner == v.owner
        || ((w.owner.ByThread? ==> w.owner.thread == t) && (v.owner.ByThread? ==> v.owner.thread == t)))
    && (w.mutex == v.mutex || ((w.mutex.Some? ==> w.mutex.value == t) && (v.mutex.Some? ==> v.mutex.value == t)))
    && (SameData(w, v) || v.owner == ByThread(t))
  }

  ghost predicate Local(w: World, v: World, t: Thread) {
    && v.threads == w.threads[t := PcOf(v, t)]
    && CycleOk(v) && ThreadOk(v, t) && Others(w, v, t) && RequestsMoved(w, v, t)
  }

  lemma {:induction false} ThreadsKept(w: World, v: World, t: Thread)
    requires Inv(w) && Local(w, v, t)
    ensures forall u :: ThreadOk(v, u)
  {
    forall u ensures ThreadOk(v, u) {
      assert ThreadOk(w, u);
    }
  }

  lemma {:induction false} RequestsKept(w: World, v: World, t: Thread)
    requires Inv(w) && Local(w, v, t)
    ensures forall id :: RequestOk(v, id)
  {
    forall id ensures RequestOk(v, id) {
      assert RequestOk(w, id);
      assert ThreadOk(w, t) && ThreadOk(v, t);
    }
  }

  /** No notification is refused, served or dropped, and none loses its carrier. */
  ghost predicate TicketsSame(w: World, v: World, t: Thread) {
    && v.carried == w.carried && v.served == w.served && v.dropped == w.dropped && v.tickets == w.tickets
    && v.guard == w.guard && (Rerunning(PcOf(w, t)) ==> Rerunning(PcOf(v, t)))
  }

  lemma {:induction false} QuietKept(w: World, v: World, t: Thread)
    requires Inv(w) && Local(w, v, t) && TicketsSame(w, v, t)
    ensures Inv(v)
  {
    ThreadsKept(w, v, t);
    RequestsKept(w, v, t);
    forall k ensures TicketOk(v, k) {
      assert TicketOk(w, k);
    }
  }

  // ----- every action keeps the invariant -----

  /** A step that changes nothing but where the thread is and whether it holds the mutex. */
  lemma {:induction false} MoveHolds(w: World, t: Thread, pc: Pc, v: World)
    requires Inv(w) && v == At(w, t, pc).(mutex := v.mutex)
    requires Responsible(pc) == Responsible(PcOf(w, t)) && (Rerunning(PcOf(w, t)) ==> Rerunning(pc))
    requires v.mutex == if Locks(pc) then Some(t) else if Locks(PcOf(w, t)) then None else w.mutex
    requires Locks(pc) && !Locks(PcOf(w, t)) ==> w.mutex.None?
    requires !pc.DiffWantLock? && !pc.SendDetails? && (pc.EndTry? ==> !pc.seen.NotUpdating?)
    requires pc.DiffApply? ==> PcOf(w, t).DiffWantLock? && PcOf(w, t).asked == pc.asked
    ensures Inv(v)
  {
    assert ThreadOk(w, t);
    QuietKept(w, v, t);
  }

  lemma {:induction false} SentHolds(w: World, t: Thread, id: RequestId, request: Request, sent: bool, v: World)
    requires Inv(w) && id !in w.requests
    requires (PcOf(w, t).SendDiff? && request == DiffRequest(w.known))
          || (PcOf(w, t).SendDetails? && request == DetailsRequest(PcOf(w, t).added, PcOf(w, t).removed))
    requires v == Sent(w, t, id, request, sent).(lost := v.lost, terminated := v.terminated)
    requires sent ==> v.lost == w.lost
    ensures Inv(v)
  {
    assert ThreadOk(w, t);
    QuietKept(w, v, t);
  }

  lemma {:induction false} AnsweredHolds(w: World, t: Thread, id: RequestId, pc: Pc, v: World)
    requires Inv(w) && PcOf(w, t).Idle? && id in w.requests
    requires v == Answered(w, t, id, pc).(told := v.told, lost := v.lost)
    requires pc.EndLoad? || (pc.DiffWantLock? && w.requests[id] == DiffRequest(pc.asked))
    ensures Inv(v)
  {
    assert ThreadOk(w, t) && RequestOk(w, id);
    QuietKept(w, v, t);
  }

  lemma {:induction false} NothingToDoHolds(w: World, t: Thread)
    requires Inv(w) && (PcOf(w, t).ReadSync? || PcOf(w, t).ReadObservers?)
    ensures Inv(NothingToDo(w, t))
  {
    assert ThreadOk(w, t);
    var v := NothingToDo(w, t);
    ThreadsKept(w, v, t);
    RequestsKept(w, v, t);
    forall k ensures TicketOk(v, k) {
      assert TicketOk(w, k);
    }
  }

  lemma {:induction false} RefusedHolds(w: World, t: Thread, pc: Pc, v: World)
    requires Inv(w) && (PcOf(w, t).BeginLoad? || PcOf(w, t).BeginTry?)
    requires pc.Idle? || (pc.BeginTry? && pc.seen.UpdateRequired?)
    requires v == At(Refused(w, t), t, pc).(guard := UpdateRequired) && !w.guard.NotUpdating?
    ensures Inv(v)
  {
    assert ThreadOk(w, t);
    ThreadsKept(w, v, t);
    RequestsKept(w, v, t);
    forall k ensures TicketOk(v, k) {
      assert TicketOk(w, k);
    }
  }

  lemma {:induction false} BegunHolds(w: World, t: Thread)
    requires Inv(w) && PcOf(w, t).BeginTry? && w.guard.NotUpdating?
    ensures Inv(Begun(w, t))
  {
    assert ThreadOk(w, t);
    var v := Begun(w, t);
    ThreadsKept(w, v, t);
    RequestsKept(w, v, t);
    forall k ensures TicketOk(v, k) {
      assert TicketOk(w, k);
    }
  }

  lemma {:induction false} EndedHolds(w: World, t: Thread)
    requires Inv(w) && PcOf(w, t).EndTry?
    ensures Inv(Ended(w, t, w.guard.UpdateRequired?))
  {
    assert ThreadOk(w, t);
    var v := Ended(w, t, w.guard.UpdateRequired?);
    ThreadsKept(w, v, t);
    RequestsKept(w, v, t);
    forall k ensures TicketOk(v, k) {
      assert TicketOk(w, k);
    }
  }

  lemma {:induction false} ApplyHolds(w: World, t: Thread)
    requires Inv(w) && LogOk(w) && PcOf(w, t).DiffApply?
    ensures Inv(ApplyStep(w, t))
  {
    assert ThreadOk(w, t) && DeliveredAt(w, |w.log|);
    QuietKept(w, ApplyStep(w, t), t);
  }

  lemma {:induction false} TryBeginHolds(w: World, t: Thread, spurious: bool)
    requires Inv(w) && PcOf(w, t).BeginTry?
    ensures Inv(TryBeginStep(w, t, spurious))
  {
    var pc := PcOf(w, t);
    if pc.seen.NotUpdating? && w.guard.NotUpdating? && !spurious {
      BegunHolds(w, t);
    } else if pc.seen.Updating? && w.guard.Updating? && !spurious {
      RefusedHolds(w, t, Idle, TryBeginStep(w, t, spurious));
    } else if pc.seen.UpdateRequired? {
      MoveHolds(w, t, Idle, TryBeginStep(w, t, spurious));
    } else {
      BeginSawHolds(w, t, pc.rerun);
    }
  }

  lemma {:induction false} BeginSawHolds(w: World, t: Thread, rerun: bool)
    requires Inv(w) && ((PcOf(w, t).BeginLoad? && PcOf(w, t).rerun == rerun)
                        || (PcOf(w, t).BeginTry? && PcOf(w, t).rerun == rerun && !PcOf(w, t).seen.UpdateRequired?))
    ensures Inv(BeginSaw(w, t, w.guard, rerun))
  {
    var v := BeginSaw(w, t, w.guard, rerun);
    if w.guard.UpdateRequired? {
      RefusedHolds(w, t, BeginTry(w.guard, rerun), v);
    } else {
      MoveHolds(w, t, BeginTry(w.guard, rerun), v);
    }
  }

  lemma {:induction false} TryEndHolds(w: World, t: Thread, spurious: bool)
    requires Inv(w) && PcOf(w, t).EndTry?
    ensures Inv(TryEndStep(w, t, spurious))
  {
    assert ThreadOk(w, t);
    if w.guard == PcOf(w, t).seen && !spurious {
      EndedHolds(w, t);
    } else {
      MoveHolds(w, t, EndTry(w.guard), TryEndStep(w, t, spurious));
    }
  }

  lemma {:induction false} EnvironmentHolds(w: World, synchronized: bool, observers: nat)
    requires Inv(w)
    ensures Inv(w.(synchronized := synchronized, observers := observers))
  {
    var v := w.(synchronized := synchronized, observers := observers);
    forall t ensures ThreadOk(v, t) {
      assert ThreadOk(w, t);
    }
    forall id ensures RequestOk(v, id) {
      assert RequestOk(w, id);
    }
    forall k ensures TicketOk(v, k) {
      assert TicketOk(w, k);
    }
  }

  /** The actions of a `poolChanged` call up to the outcome of `beginUpdate`. */
  predicate IsCall(a: Action) {
    a.Notify? || a.CheckSynchronized? || a.CheckObservers? || a.LoadBegin? || a.TryBegin?
  }

  lemma {:induction false} CallHolds(w: World, a: Action)
    requires Inv(w) && Enabled(w, a) && IsCall(a)
    ensures Inv(Do(w, a))
  {
    match a
    case Notify(t) => MoveHolds(w, t, ReadSync(false), Do(w, a));
    case CheckSynchronized(t) =>
      if w.synchronized { MoveHolds(w, t, ReadObservers(PcOf(w, t).rerun), Do(w, a)); } else { NothingToDoHolds(w, t); }
    case CheckObservers(t) =>
      if w.observers != 0 { MoveHolds(w, t, BeginLoad(PcOf(w, t).rerun), Do(w, a)); } else { NothingToDoHolds(w, t); }
    case LoadBegin(t) => BeginSawHolds(w, t, PcOf(w, t).rerun);
    case TryBegin(t, spurious) => TryBeginHolds(w, t, spurious);
  }

  lemma {:induction false} RequestHolds(w: World, a: Action)
    requires Inv(w) && LogOk(w) && Enabled(w, a)
    requires a.RequestDiff? || a.AnswerDiff? || a.Apply? || a.RequestDetails? || a.AnswerDetails?
    ensures Inv(Do(w, a))
  {
    match a
    case RequestDiff(t, id, sent) => SentHolds(w, t, id, DiffRequest(w.known), sent, Do(w, a));
    case AnswerDiff(t, id, failed, incoming, gone) => AnsweredHolds(w, t, id, PcOf(Do(w, a), t), Do(w, a));
    case Apply(t) => ApplyHolds(w, t);
    case RequestDetails(t, id, sent) =>
      SentHolds(w, t, id, DetailsRequest(PcOf(w, t).added, PcOf(w, t).removed), sent, Do(w, a));
    case AnswerDetails(t, id, failed) => AnsweredHolds(w, t, id, EndLoad, Do(w, a));
  }

  lemma {:induction false} LockHolds(w: World, a: Action)
    requires Inv(w) && Enabled(w, a) && (a.TakeMutex? || a.Unlock? || a.Borrow?)
    ensures Inv(Do(w, a))
  {
    match a
    case TakeMutex(t) => MoveHolds(w, t, PcOf(Do(w, a), t), Do(w, a));
    case Unlock(t) => UnlockHolds(w, t);
    case Borrow(t) => MoveHolds(w, t, Leave, Do(w, a));
  }

  /** Every enabled action keeps the invariant. */
  lemma {:induction false} StepHolds(w: World, a: Action)
    requires Inv(w) && LogOk(w) && Enabled(w, a)
    ensures Inv(Do(w, a))
  {
    match a
    case LoadEnd(t) => LoadEndHolds(w, t);
    case TryEnd(t, spurious) => TryEndHolds(w, t, spurious);
    case SetSynchronized(value) => EnvironmentHolds(w, value, w.observers);
    case SetObservers(count) => EnvironmentHolds(w, w.synchronized, count);
    case _ =>
      if IsCall(a) { CallHolds(w, a); }
      else if a.TakeMutex? || a.Unlock? || a.Borrow? { LockHolds(w, a); }
      else { RequestHolds(w, a); }
  }

  lemma {:induction false} UnlockHolds(w: World, t: Thread)
    requires Inv(w) && Enabled(w, Unlock(t))
    ensures Inv(Do(w, Unlock(t)))
  {
    assert ThreadOk(w, t);
    MoveHolds(w, t, if PcOf(w, t).Leave? then Idle else EndLoad, Do(w, Unlock(t)));
  }

  lemma {:induction false} LoadEndHolds(w: World, t: Thread)
    requires Inv(w) && Enabled(w, LoadEnd(t))
    ensures Inv(Do(w, LoadEnd(t)))
  {
    assert ThreadOk(w, t);
    MoveHolds(w, t, EndTry(w.guard), Do(w, LoadEnd(t)));
  }

  /** Both loops, one after the other, do what `Apply` does. */
  method ApplyAnswer(w: World, t: Thread) returns (known: set<Hash>, added: seq<Hash>, removed: seq<Hash>)
    requires Enabled(w, Apply(t))
    ensures Do(w, Apply(t)).known == known && PcOf(Do(w, Apply(t)), t) == SendDetails(added, removed)
    ensures Do(w, Apply(t)).log == w.log + [Delta(added, removed)]
  {
    known, added := InsertAll(w.known, PcOf(w, t).incoming);
    known, removed := EraseAll(known, PcOf(w, t).gone);
  }

  /** Whatever the node answers: a hash is known afterwards exactly if it is not among the removed ones, and was
      known or is among the new ones. A hash that is both new and removed is reported as both. */
  lemma {:induction false} ApplyMeaning(w: World, t: Thread, h: Hash)
    requires Enabled(w, Apply(t))
    ensures var pc, v := PcOf(w, t), Do(w, Apply(t));
      && (h in v.known <==> (h in w.known || h in pc.incoming) && h !in pc.gone)
      && (h in PcOf(v, t).added <==> h in pc.incoming && h !in w.known)
      && (h in PcOf(v, t).removed <==> h in pc.gone && (h in w.known || h in pc.incoming))
  {
    var pc := PcOf(w, t);
    AddedMeaning(w.known, pc.incoming);
    RemovedMeaning(w.known + Elements(pc.incoming), pc.gone);
    var v := Do(w, Apply(t));
    assert h in PcOf(v, t).added <==> h in Elements(PcOf(v, t).added);
    assert h in PcOf(v, t).removed <==> h in Elements(PcOf(v, t).removed);
  }

  // ----- the log of deltas -----

  /** Folding the deltas from an empty set. */
  function Replay(log: seq<Delta>): set<Hash> {
    if log == [] then {}
    else Replay(log[..|log| - 1]) + Elements(log[|log| - 1].added) - Elements(log[|log| - 1].removed)
  }

  /** What the delta says is true of the set it was computed from. */
  ghost predicate Truthful(before: set<Hash>, d: Delta) {
    && NoRepeat(d.added) && NoRepeat(d.removed)
    && Elements(d.added) !! before
    && Elements(d.removed) <= before + Elements(d.added)
  }

  ghost predicate TruthfulAt(log: seq<Delta>, i: int) {
    0 <= i < |log| ==> Truthful(Replay(log[..i]), log[i])
  }

  /** Observers are told of deltas in the order computed, of none twice and of no empty one. */
  ghost predicate ToldInOrder(w: World) {
    && (forall i, j :: 0 <= i < j < |w.told| ==> w.told[i] < w.told[j])
    && (forall i :: 0 <= i < |w.told| ==> w.told[i] < |w.log| && w.log[w.told[i]] != NOTHING)
  }

  /** A delta is on its way to the observers. */
  predicate Delivering(w: World) {
    match w.owner
    case Nobody => false
    case ByThread(t) => PcOf(w, t).SendDetails?
    case ByRequest(id) => id in w.requests && w.requests[id].DetailsRequest?
  }

  /** A delta that is not empty is told or lost, one or the other, once it is no longer on its way. */
  ghost predicate DeliveredAt(w: World, i: nat) {
    && (i in w.lost ==> i < |w.log| && w.log[i] != NOTHING)
    && (i < |w.log| && w.log[i] != NOTHING ==>
          if i + 1 == |w.log| && Delivering(w) then i !in w.told && i !in w.lost else (i in w.told <==> i !in w.lost))
  }

  ghost predicate LogOk(w: World) {
    && Replay(w.log) == w.known
    && (forall i :: TruthfulAt(w.log, i))
    && ToldInOrder(w)
    && (forall i :: DeliveredAt(w, i))
  }

  lemma {:induction false} ApplyLogged(w: World, t: Thread)
    requires Inv(w) && LogOk(w) && PcOf(w, t).DiffApply?
    ensures LogOk(ApplyStep(w, t))
  {
    var pc := PcOf(w, t);
    var grown := w.known + Elements(pc.incoming);
    var v := ApplyStep(w, t);
    AddedMeaning(w.known, pc.incoming);
    RemovedMeaning(grown, pc.gone);
    assert v.log[..|v.log| - 1] == w.log;
    forall i ensures TruthfulAt(v.log, i) {
      assert TruthfulAt(w.log, i);
      if 0 <= i < |w.log| {
        assert v.log[..i] == w.log[..i];
      }
    }
    ApplyDelivers(w, t);
  }

  lemma {:induction false} ApplyDelivers(w: World, t: Thread)
    requires Inv(w) && LogOk(w) && PcOf(w, t).DiffApply?
    ensures forall i :: DeliveredAt(ApplyStep(w, t), i)
  {
    assert ThreadOk(w, t);
    forall i: nat ensures DeliveredAt(ApplyStep(w, t), i) {
      assert DeliveredAt(w, i);
    }
  }

  lemma {:induction false} ToldMore(w: World, v: World)
    requires LogOk(w) && Delivering(w) && !Delivering(v) && w.log != [] && w.log[Last(w)] != NOTHING
    requires v.log == w.log && v.known == w.known && v.lost == w.lost && v.told == w.told + [Last(w)]
    requires w.told == [] || w.told[|w.told| - 1] < Last(w)
    ensures LogOk(v)
  {
    forall i, j | 0 <= i < j < |v.told| ensures v.told[i] < v.told[j] {
      if j == |w.told| {
        assert w.told[i] <= w.told[|w.told| - 1];
      } else {
        assert w.told[i] < w.told[j];
      }
    }
    assert v.told[|w.told|] == Last(w);
    forall i: nat ensures DeliveredAt(v, i) {
      assert DeliveredAt(w, i);
      assert i in v.told <==> i in w.told || i == Last(w);
    }
  }

  lemma {:induction false} LostMore(w: World, v: World)
    requires LogOk(w) && Delivering(w) && !Delivering(v) && w.log != [] && w.log[Last(w)] != NOTHING
    requires v.log == w.log && v.known == w.known && v.lost == w.lost + {Last(w)} && v.told == w.told
    ensures LogOk(v)
  {
    forall i: nat ensures DeliveredAt(v, i) {
      assert DeliveredAt(w, i);
    }
  }

  /** Neither told nor lost: a delta that is still on its way, or is empty, or none at all. */
  lemma {:induction false} SameLogged(w: World, v: World)
    requires LogOk(w) && SameData(w, v)
    requires Delivering(v) == Delivering(w) || (!Delivering(v) && w.log != [] && w.log[Last(w)] == NOTHING)
    ensures LogOk(v)
  {
    forall i: nat ensures DeliveredAt(v, i) {
      assert DeliveredAt(w, i);
    }
  }

  /** A `poolChanged` call that has not begun an update changes neither the known pool nor the log. */
  lemma {:induction false} CallLogged(w: World, a: Action)
    requires Inv(w) && LogOk(w) && Enabled(w, a) && IsCall(a)
    ensures LogOk(Do(w, a))
  {
    assert ThreadOk(w, a.t);
    CallSameData(w, a);
    CallDelivers(w, a);
    SameLogged(w, Do(w, a));
  }

  /** Nothing but this thread, the guard and the notifications may change. */
  ghost predicate CallOnly(w: World, v: World, t: Thread) {
    SameData(w, v) && v.terminated == w.terminated && v.threads == w.threads[t := PcOf(v, t)]
  }

  lemma {:induction false} SawCalls(w: World, t: Thread, rerun: bool)
    ensures CallOnly(w, BeginSaw(w, t, w.guard, rerun), t)
  {
  }

  lemma {:induction false} RefusedCalls(w: World, t: Thread)
    ensures CallOnly(w, At(Refused(w, t), t, Idle).(guard := UpdateRequired), t)
  {
  }

  lemma {:induction false} BeginCalls(w: World, t: Thread, spurious: bool)
    requires PcOf(w, t).BeginTry?
    ensures CallOnly(w, TryBeginStep(w, t, spurious), t)
  {
    SawCalls(w, t, PcOf(w, t).rerun);
    RefusedCalls(w, t);
    assert CallOnly(w, Begun(w, t), t) && CallOnly(w, At(w, t, Idle), t);
  }

  lemma {:induction false} CallSameData(w: World, a: Action)
    requires Enabled(w, a) && IsCall(a)
    ensures CallOnly(w, Do(w, a), a.t)
  {
    if a.TryBegin? {
      BeginCalls(w, a.t, a.spurious);
    }
  }

  /** Thread `t` only moves, and is not the one that sees to the update. */
  ghost predicate Aside(w: World, v: World, t: Thread) {
    w.owner != ByThread(t) && v.owner == w.owner && v.requests == w.requests && v.threads == w.threads[t := PcOf(v, t)]
  }

  lemma {:induction false} AsideDelivers(w: World, v: World, t: Thread)
    requires Aside(w, v, t)
    ensures Delivering(v) == Delivering(w)
  {
  }

  lemma {:induction false} BeginDelivers(w: World, t: Thread, spurious: bool)
    requires Inv(w) && PcOf(w, t).BeginTry?
    ensures Delivering(TryBeginStep(w, t, spurious)) == Delivering(w)
  {
    assert ThreadOk(w, t);
    var v := TryBeginStep(w, t, spurious);
    if PcOf(w, t).seen.NotUpdating? && w.guard.NotUpdating? && !spurious {
      assert PcOf(v, t).WantLock?;
    } else {
      AsideDelivers(w, v, t);
    }
  }

  lemma {:induction false} CallDelivers(w: World, a: Action)
    requires Inv(w) && Enabled(w, a) && IsCall(a)
    ensures Delivering(Do(w, a)) == Delivering(w)
  {
    if a.TryBegin? {
      BeginDelivers(w, a.t, a.spurious);
    } else {
      assert ThreadOk(w, a.t);
      AsideDelivers(w, Do(w, a), a.t);
    }
  }

  lemma {:induction false} SendLogged(w: World, a: Action)
    requires Inv(w) && LogOk(w) && Enabled(w, a) && a.RequestDetails?
    ensures LogOk(Do(w, a))
  {
    var v := Do(w, a);
    assert ThreadOk(w, a.t);
    if v.lost != w.lost {
      LostMore(w, v);
    } else {
      SameLogged(w, v);
    }
  }

  lemma {:induction false} AnswerLogged(w: World, a: Action)
    requires Inv(w) && LogOk(w) && Enabled(w, a) && a.AnswerDetails?
    ensures LogOk(Do(w, a))
  {
    var v := Do(w, a);
    assert RequestOk(w, a.id);
    if v.told != w.told {
      ToldMore(w, v);
    } else if v.lost != w.lost {
      LostMore(w, v);
    } else {
      SameLogged(w, v);
    }
  }

  lemma {:induction false} QuietLogged(w: World, a: Action)
    requires Inv(w) && LogOk(w) && Enabled(w, a) && !IsCall(a) && !a.Apply? && !a.RequestDetails? && !a.AnswerDetails?
    ensures LogOk(Do(w, a))
  {
    QuietDelivers(w, a);
    SameLogged(w, Do(w, a));
  }

  lemma {:induction false} QuietDelivers(w: World, a: Action)
    requires Inv(w) && Enabled(w, a) && !IsCall(a) && !a.Apply? && !a.RequestDetails? && !a.AnswerDetails?
    ensures SameData(w, Do(w, a)) && Delivering(Do(w, a)) == Delivering(w)
  {
    if a.AnswerDiff? {
      assert RequestOk(w, a.id);
    }
    if !a.SetSynchronized? && !a.SetObservers? {
      assert ThreadOk(w, a.t);
    }
  }

  lemma {:induction false} StepLogged(w: World, a: Action)
    requires Inv(w) && LogOk(w) && Enabled(w, a)
    ensures LogOk(Do(w, a))
  {
    if IsCall(a) {
      CallLogged(w, a);
    } else if a.Apply? {
      ApplyLogged(w, a.t);
    } else if a.RequestDetails? {
      SendLogged(w, a);
    } else if a.AnswerDetails? {
      AnswerLogged(w, a);
    } else {
      QuietLogged(w, a);
    }
  }

  // ----- every run -----

  ghost predicate IsRun(w: World, run: seq<Action>)
    decreases |run|
  {
    run == [] || (Enabled(w, run[0]) && IsRun(Do(w, run[0]), run[1..]))
  }

  ghost function After(w: World, run: seq<Action>): World
    requires IsRun(w, run)
    decreases |run|
  {
    if run == [] then w else After(Do(w, run[0]), run[1..])
  }

  ghost predicate Safe(w: World) {
    Inv(w) && LogOk(w)
  }

  lemma {:induction false} RunKeeps(w: World, run: seq<Action>)
    requires Safe(w) && IsRun(w, run)
    ensures Safe(After(w, run))
    decreases |run|
  {
    if run == [] {
    } else {
      StepHolds(w, run[0]);
      StepLogged(w, run[0]);
      RunKeeps(Do(w, run[0]), run[1..]);
    }
  }

  /** Every reachable world is safe. */
  lemma {:induction false} Reachable(run: seq<Action>)
    requires IsRun(INITIAL, run)
    ensures Safe(After(INITIAL, run))
  {
    InitialHolds();
    RunKeeps(INITIAL, run);
  }

  /** At most one update is open: never two threads, two requests, or a thread and a request, see to an
      update at once; the guard is free exactly when none is; and updates begun and ended balance. */
  lemma {:induction false} OneUpdate(run: seq<Action>, t: Thread, u: Thread, i: RequestId, j: RequestId)
    requires IsRun(INITIAL, run)
    ensures var w := After(INITIAL, run);
      && (Responsible(PcOf(w, t)) && Responsible(PcOf(w, u)) ==> t == u)
      && (i in w.requests && j in w.requests ==> i == j)
      && !(Responsible(PcOf(w, t)) && i in w.requests)
      && (w.guard.NotUpdating? ==> !Responsible(PcOf(w, t)) && i !in w.requests && w.begun == w.ended)
      && (!w.guard.NotUpdating? ==> w.begun == w.ended + 1)
  {
    Reachable(run);
    var w := After(INITIAL, run);
    assert ThreadOk(w, t) && ThreadOk(w, u) && RequestOk(w, i) && RequestOk(w, j);
  }

  /** The mutex has at most one holder, and `endUpdate` never finds the guard free. */
  lemma {:induction false} Exclusive(run: seq<Action>, t: Thread, u: Thread)
    requires IsRun(INITIAL, run)
    ensures var w := After(INITIAL, run);
      && (Locks(PcOf(w, t)) && Locks(PcOf(w, u)) ==> t == u)
      && (PcOf(w, t).EndTry? ==> !PcOf(w, t).seen.NotUpdating? && !w.guard.NotUpdating?)
  {
    Reachable(run);
    assert ThreadOk(After(INITIAL, run), t) && ThreadOk(After(INITIAL, run), u);
  }

  /** When `beginUpdate` comes to its refusal, the refused call is recorded in a guard that says
      `UPDATE_REQUIRED`; otherwise nothing is recorded. */
  lemma {:induction false} RefusalRecorded(w: World, t: Thread, spurious: bool)
    requires PcOf(w, t).BeginTry? && !PcOf(w, t).seen.UpdateRequired?
    ensures var v := TryBeginStep(w, t, spurious);
      if PcOf(v, t).Idle? || (PcOf(v, t).BeginTry? && PcOf(v, t).seen.UpdateRequired?) then
        v.guard.UpdateRequired? && v.tickets == w.tickets + 1 && w.tickets in v.carried && v.carried[w.tickets].InGuard?
      else
        v.tickets == w.tickets && (PcOf(v, t).WantLock? <==> v.begun == w.begun + 1)
  {
    var pc := PcOf(w, t);
    if w.guard == pc.seen && !spurious {
    } else {
      assert TryBeginStep(w, t, spurious) == BeginSaw(w, t, w.guard, pc.rerun);
    }
  }

  /** Every refused notification is represented by the guard or by a thread re-running, unless an update
      has begun since or the re-run found nothing to do. */
  lemma {:induction false} RefusalKept(run: seq<Action>, k: Ticket)
    requires IsRun(INITIAL, run) && k < After(INITIAL, run).tickets
    ensures var w := After(INITIAL, run);
      || k in w.served || k in w.dropped
      || (k in w.carried && w.carried[k].InGuard? && w.guard.UpdateRequired?)
      || (k in w.carried && w.carried[k].InRerun? && Rerunning(PcOf(w, w.carried[k].thread)))
  {
    Reachable(run);
    assert TicketOk(After(INITIAL, run), k);
  }

  lemma {:induction false} CarriedOn(w: World, a: Action, k: Ticket)
    requires Enabled(w, a) && !IsCall(a) && k in w.carried
    ensures k in Do(w, a).carried
  {
  }

  lemma {:induction false} BeginEnds(w: World, a: Action, k: Ticket)
    requires Enabled(w, a) && k in w.carried && (a.LoadBegin? || a.TryBegin?)
    ensures k in Do(w, a).carried || (Do(w, a).begun == w.begun + 1 && k in Do(w, a).served)
  {
    assert k in BeginSaw(w, a.t, w.guard, PcOf(w, a.t).rerun).carried;
  }

  /** A refused notification stops being represented only when an update begins, or when the thread
      re-running for it finds the explorer unsynchronised or without observers. */
  lemma {:induction false} RefusalEnds(w: World, a: Action, k: Ticket)
    requires Enabled(w, a) && k in w.carried && k !in Do(w, a).carried
    ensures
      || (Do(w, a).begun == w.begun + 1 && k in Do(w, a).served)
      || (a.CheckSynchronized? && !w.synchronized && w.carried[k] == InRerun(a.t))
      || (a.CheckObservers? && w.observers == 0 && w.carried[k] == InRerun(a.t))
  {
    if !IsCall(a) {
      CarriedOn(w, a, k);
    } else if a.LoadBegin? || a.TryBegin? {
      BeginEnds(w, a, k);
    }
  }

  /** An answer that is exactly the difference between what was asked about and the node's pool makes the
      known pool the node's pool, because nothing changed it meanwhile. */
  lemma {:induction false} ExactAnswer(run: seq<Action>, t: Thread, pool: set<Hash>)
    requires IsRun(INITIAL, run) && Enabled(After(INITIAL, run), Apply(t))
    requires var pc := PcOf(After(INITIAL, run), t);
      Elements(pc.incoming) == pool - pc.asked && Elements(pc.gone) == pc.asked - pool
    ensures Do(After(INITIAL, run), Apply(t)).known == pool
  {
    Reachable(run);
    assert ThreadOk(After(INITIAL, run), t);
  }

  /** Folding the computed deltas rebuilds the known pool. */
  lemma {:induction false} DeltasRebuild(run: seq<Action>)
    requires IsRun(INITIAL, run)
    ensures Replay(After(INITIAL, run).log) == After(INITIAL, run).known
    ensures ToldInOrder(After(INITIAL, run))
  {
    Reachable(run);
  }

  ghost predicate RemovedBetween(log: seq<Delta>, h: Hash, i: int, j: int) {
    exists k :: 0 <= i <= k < j <= |log| && h in log[k].removed
  }

  lemma {:induction false} StaysKnown(log: seq<Delta>, h: Hash, i: nat, j: nat)
    requires i < j <= |log| && h in log[i].added && !RemovedBetween(log, h, i, j)
    ensures h in Replay(log[..j])
    decreases j
  {
    var d := log[j - 1];
    assert log[..j][..|log[..j]| - 1] == log[..j - 1] && log[..j][|log[..j]| - 1] == d;
    assert h !in d.removed;
    if i == j - 1 {
    } else {
      StaysKnown(log, h, i, j - 1);
    }
  }

  /** No hash is computed as new twice without being computed as removed in between. */
  lemma {:induction false} NewOnce(run: seq<Action>, h: Hash, i: nat, j: nat)
    requires IsRun(INITIAL, run)
    requires i < j < |After(INITIAL, run).log|
    requires h in After(INITIAL, run).log[i].added && h in After(INITIAL, run).log[j].added
    ensures RemovedBetween(After(INITIAL, run).log, h, i, j)
  {
    Reachable(run);
    var log := After(INITIAL, run).log;
    assert TruthfulAt(log, j);
    assert h in Elements(log[j].added);
    if !RemovedBetween(log, h, i, j) {
      StaysKnown(log, h, i, j);
    }
  }

  // ----- runs that end the program -----

  predicate InCall(pc: Pc) {
    pc.ReadSync? || pc.ReadObservers? || pc.BeginLoad? || pc.BeginTry? || pc.WantLock? || pc.SendDiff?
  }

  predicate IsRerun(pc: Pc) {
    InCall(pc) && pc.rerun
  }

  /** The program ends when the request of a re-run is not sent, and in no other way. */
  lemma {:induction false} TerminatesOnly(w: World, a: Action)
    requires Enabled(w, a)
    ensures Do(w, a).terminated <==> a.RequestDiff? && !a.sent && IsRerun(PcOf(w, a.t))
  {
    if IsCall(a) {
      CallSameData(w, a);
    }
  }

  /** Whoever re-runs does so because a notification was refused. */
  ghost predicate RerunOk(w: World, t: Thread) {
    (IsRerun(PcOf(w, t)) || w.guard.UpdateRequired? || w.terminated) ==> w.tickets > 0
  }

  lemma {:induction false} BeginReruns(w: World, t: Thread, spurious: bool)
    requires PcOf(w, t).BeginTry? && RerunOk(w, t)
    ensures RerunOk(TryBeginStep(w, t, spurious), t) && TryBeginStep(w, t, spurious).tickets >= w.tickets
  {
    var pc := PcOf(w, t);
    if !pc.seen.UpdateRequired? && (w.guard != pc.seen || spurious) {
      assert TryBeginStep(w, t, spurious) == BeginSaw(w, t, w.guard, pc.rerun);
    }
  }

  lemma {:induction false} CallReruns(w: World, a: Action)
    requires Enabled(w, a) && IsCall(a) && RerunOk(w, a.t)
    ensures RerunOk(Do(w, a), a.t) && Do(w, a).tickets >= w.tickets
  {
    if a.TryBegin? {
      BeginReruns(w, a.t, a.spurious);
    }
  }

  lemma {:induction false} RerunMoves(w: World, a: Action)
    requires Enabled(w, a) && !a.SetSynchronized? && !a.SetObservers? && RerunOk(w, a.t)
    ensures RerunOk(Do(w, a), a.t) && Do(w, a).tickets >= w.tickets
  {
    if IsCall(a) {
      CallReruns(w, a);
    }
  }

  lemma {:induction false} OthersStay(w: World, a: Action, u: Thread)
    requires Enabled(w, a) && (a.SetSynchronized? || a.SetObservers? || a.t != u)
    ensures PcOf(Do(w, a), u) == PcOf(w, u)
  {
    if IsCall(a) {
      CallSameData(w, a);
    }
  }

  lemma {:induction false} RerunKept(w: World, a: Action)
    requires Enabled(w, a) && forall t :: RerunOk(w, t)
    ensures forall t :: RerunOk(Do(w, a), t)
  {
    assert RerunOk(w, 0);
    forall u ensures RerunOk(Do(w, a), u) {
      assert RerunOk(w, u);
      if !a.SetSynchronized? && !a.SetObservers? {
        RerunMoves(w, a);
      }
      if a.SetSynchronized? || a.SetObservers? || a.t != u {
        OthersStay(w, a, u);
      }
    }
  }

  lemma {:induction false} RunReruns(w: World, run: seq<Action>)
    requires IsRun(w, run) && forall t :: RerunOk(w, t)
    ensures forall t :: RerunOk(After(w, run), t)
    decreases |run|
  {
    if run == [] {
    } else {
      RerunKept(w, run[0]);
      RunReruns(Do(w, run[0]), run[1..]);
    }
  }

  /** The last `poolChanged` call of the thread was made by the end handler and not by a notification: of its
      actions that can start one, the last is a compare-and-exchange of `endUpdate`. */
  predicate FromHandler(run: seq<Action>, t: Thread)
    decreases |run|
  {
    run != [] && var a := run[|run| - 1];
      a != Notify(t) && ((a.TryEnd? && a.t == t) || FromHandler(run[..|run| - 1], t))
  }

  lemma {:induction false} CallOrigin(w: World, a: Action)
    requires Enabled(w, a) && IsCall(a) && !a.Notify? && InCall(PcOf(Do(w, a), a.t))
    ensures InCall(PcOf(w, a.t)) && PcOf(Do(w, a), a.t).rerun == PcOf(w, a.t).rerun
  {
    if a.TryBegin? {
      BeginOrigin(w, a.t, a.spurious);
    }
  }

  lemma {:induction false} BeginOrigin(w: World, t: Thread, spurious: bool)
    requires PcOf(w, t).BeginTry? && InCall(PcOf(TryBeginStep(w, t, spurious), t))
    ensures PcOf(TryBeginStep(w, t, spurious), t).rerun == PcOf(w, t).rerun
  {
    var pc := PcOf(w, t);
    if w.guard != pc.seen || spurious {
      assert TryBeginStep(w, t, spurious) == BeginSaw(w, t, w.guard, pc.rerun);
    }
  }

  lemma {:induction false} OwnOrigin(w: World, a: Action)
    requires Enabled(w, a) && !IsCall(a) && !a.SetSynchronized? && !a.SetObservers? && InCall(PcOf(Do(w, a), a.t))
    ensures if a.TryEnd? then PcOf(Do(w, a), a.t).rerun
            else InCall(PcOf(w, a.t)) && PcOf(Do(w, a), a.t).rerun == PcOf(w, a.t).rerun
  {
  }

  /** `rerun` tells who made the call. */
  lemma {:induction false} Origin(run: seq<Action>, t: Thread)
    requires IsRun(INITIAL, run) && InCall(PcOf(After(INITIAL, run), t))
    ensures PcOf(After(INITIAL, run), t).rerun <==> FromHandler(run, t)
    decreases |run|
  {
    if run == [] {
    } else {
      Prefix(INITIAL, run);
      var init, a := run[..|run| - 1], run[|run| - 1];
      var w := After(INITIAL, init);
      if a.SetSynchronized? || a.SetObservers? || a.t != t {
        OthersStay(w, a, t);
        Origin(init, t);
      } else if !a.Notify? {
        if IsCall(a) {
          CallOrigin(w, a);
        } else {
          OwnOrigin(w, a);
        }
        if !a.TryEnd? {
          Origin(init, t);
        }
      }
    }
  }

  /** A run ends the program exactly when its last action is that the request of a call made by the end handler
      is not sent; and never unless some notification was refused. */
  lemma {:induction false} EndsProgram(run: seq<Action>)
    requires IsRun(INITIAL, run)
    ensures After(INITIAL, run).terminated ==> After(INITIAL, run).tickets > 0
    ensures After(INITIAL, run).terminated <==>
      run != [] && var a := run[|run| - 1]; a.RequestDiff? && !a.sent && FromHandler(run[..|run| - 1], a.t)
  {
    RunReruns(INITIAL, run);
    assert RerunOk(After(INITIAL, run), 0);
    if run != [] {
      Prefix(INITIAL, run);
      var init, a := run[..|run| - 1], run[|run| - 1];
      TerminatesOnly(After(INITIAL, init), a);
      if a.RequestDiff? {
        Origin(init, a.t);
      }
    }
  }

  lemma {:induction false} Prefix(w: World, run: seq<Action>)
    requires IsRun(w, run) && run != []
    ensures IsRun(w, run[..|run| - 1])
    ensures Enabled(After(w, run[..|run| - 1]), run[|run| - 1])
    ensures After(w, run) == Do(After(w, run[..|run| - 1]), run[|run| - 1])
    decreases |run|
  {
    var rest := run[1..];
    if rest == [] {
      assert run[..|run| - 1] == [];
    } else {
      Prefix(Do(w, run[0]), rest);
      assert run[..|run| - 1][1..] == rest[..|rest| - 1];
    }
  }

  // ----- an update begins only in a synchronised explorer that is observed -----

  /** Whether the explorer is synchronised, by the actions so far. */
  predicate SynchronizedAfter(run: seq<Action>)
    decreases |run|
  {
    run != [] && var a := run[|run| - 1];
      if a.SetSynchronized? then a.value else SynchronizedAfter(run[..|run| - 1])
  }

  /** How many observers there are. */
  function ObserversAfter(run: seq<Action>): nat
    decreases |run|
  {
    if run == [] then 0
    else
      var a := run[|run| - 1];
      if a.SetObservers? then a.count else ObserversAfter(run[..|run| - 1])
  }

  /** When the thread last looked, the explorer was synchronised. */
  predicate SawSynchronized(run: seq<Action>, t: Thread)
    decreases |run|
  {
    run != [] && var init, a := run[..|run| - 1], run[|run| - 1];
      if a == CheckSynchronized(t) then SynchronizedAfter(init) else SawSynchronized(init, t)
  }

  /** When the thread last looked, there were observers. */
  predicate SawObservers(run: seq<Action>, t: Thread)
    decreases |run|
  {
    run != [] && var init, a := run[..|run| - 1], run[|run| - 1];
      if a == CheckObservers(t) then ObserversAfter(init) != 0 else SawObservers(init, t)
  }

  lemma {:induction false} CallFlags(w: World, a: Action)
    requires Enabled(w, a) && IsCall(a)
    ensures SameFlags(w, Do(w, a))
  {
    if a.TryBegin? {
      assert SameFlags(w, BeginSaw(w, a.t, w.guard, PcOf(w, a.t).rerun));
    }
  }

  lemma {:induction false} FlagsAfter(run: seq<Action>)
    requires IsRun(INITIAL, run)
    ensures After(INITIAL, run).synchronized <==> SynchronizedAfter(run)
    ensures After(INITIAL, run).observers == ObserversAfter(run)
    decreases |run|
  {
    if run == [] {
    } else {
      Prefix(INITIAL, run);
      FlagsAfter(run[..|run| - 1]);
      if IsCall(run[|run| - 1]) {
        CallFlags(After(INITIAL, run[..|run| - 1]), run[|run| - 1]);
      }
    }
  }

  predicate PastSync(pc: Pc) {
    pc.ReadObservers? || pc.BeginLoad? || pc.BeginTry?
  }

  predicate PastObservers(pc: Pc) {
    pc.BeginLoad? || pc.BeginTry?
  }

  /** How a thread comes to be past each check. */
  lemma {:induction false} PastChecks(w: World, a: Action, t: Thread)
    requires Enabled(w, a)
    ensures PastSync(PcOf(Do(w, a), t)) ==> if a == CheckSynchronized(t) then w.synchronized else PastSync(PcOf(w, t))
    ensures PastObservers(PcOf(Do(w, a), t)) ==>
      if a == CheckObservers(t) then w.observers != 0 else PastObservers(PcOf(w, t))
  {
    if a.SetSynchronized? || a.SetObservers? || a.t != t {
      OthersStay(w, a, t);
    } else if !a.TryBegin? {
      PastOwn(w, a);
    }
  }

  lemma {:induction false} PastOwn(w: World, a: Action)
    requires Enabled(w, a) && !a.SetSynchronized? && !a.SetObservers? && !a.TryBegin?
    ensures PastSync(PcOf(Do(w, a), a.t)) ==> if a.CheckSynchronized? then w.synchronized else PastSync(PcOf(w, a.t))
    ensures PastObservers(PcOf(Do(w, a), a.t)) ==>
      if a.CheckObservers? then w.observers != 0 else PastObservers(PcOf(w, a.t))
  {
  }

  lemma {:induction false} Checked(run: seq<Action>, t: Thread)
    requires IsRun(INITIAL, run)
    ensures PastSync(PcOf(After(INITIAL, run), t)) ==> SawSynchronized(run, t)
    ensures PastObservers(PcOf(After(INITIAL, run), t)) ==> SawObservers(run, t)
    decreases |run|
  {
    if run == [] {
    } else {
      var init, a := run[..|run| - 1], run[|run| - 1];
      Prefix(INITIAL, run);
      Checked(init, t);
      FlagsAfter(init);
      PastChecks(After(INITIAL, init), a, t);
    }
  }

  lemma {:induction false} OnlyTryBegins(w: World, a: Action)
    requires Enabled(w, a)
    ensures Do(w, a).begun == w.begun || (a.TryBegin? && Do(w, a).begun == w.begun + 1)
  {
    if a.TryBegin? {
      assert BeginSaw(w, a.t, w.guard, PcOf(w, a.t).rerun).begun == w.begun;
    }
  }

  /** Whenever an update begins, the thread that begins it last saw the explorer synchronised, and last saw
      observers. */
  lemma {:induction false} BeginsChecked(run: seq<Action>, a: Action)
    requires IsRun(INITIAL, run) && Enabled(After(INITIAL, run), a)
    requires Do(After(INITIAL, run), a).begun != After(INITIAL, run).begun
    ensures a.TryBegin? && SawSynchronized(run, a.t) && SawObservers(run, a.t)
  {
    OnlyTryBegins(After(INITIAL, run), a);
    Checked(run, a.t);
  }

  predicate EverSynchronized(run: seq<Action>) {
    SetSynchronized(true) in run
  }

  predicate EverObserved(run: seq<Action>) {
    exists i :: 0 <= i < |run| && run[i].SetObservers? && run[i].count != 0
  }

  lemma {:induction false} SawMeansEver(run: seq<Action>, t: Thread)
    ensures SynchronizedAfter(run) || SawSynchronized(run, t) ==> EverSynchronized(run)
    ensures ObserversAfter(run) != 0 || SawObservers(run, t) ==> EverObserved(run)
    decreases |run|
  {
    if run == [] {
    } else {
      var init, a := run[..|run| - 1], run[|run| - 1];
      SawMeansEver(init, t);
      if EverObserved(init) {
        var i :| 0 <= i < |init| && init[i].SetObservers? && init[i].count != 0;
        assert run[i] == init[i];
      }
    }
  }

  /** In an explorer that never was synchronised, or never was observed, no update begins. */
  lemma {:induction false} NeverBegins(run: seq<Action>)
    requires IsRun(INITIAL, run) && (!EverSynchronized(run) || !EverObserved(run))
    ensures After(INITIAL, run).begun == 0
    decreases |run|
  {
    if run == [] {
    } else {
      var init, a := run[..|run| - 1], run[|run| - 1];
      Prefix(INITIAL, run);
      if EverObserved(init) {
        var i :| 0 <= i < |init| && init[i].SetObservers? && init[i].count != 0;
        assert run[i] == init[i];
      }
      NeverBegins(init);
      if Do(After(INITIAL, init), a).begun != 0 {
        BeginsChecked(init, a);
        SawMeansEver(init, a.t);
      }
    }
  }

  // ----- what the observers see -----

  /** What an observer that was told the deltas at these positions makes of them. */
  ghost function Shown(log: seq<Delta>, told: seq<nat>): set<Hash>
    requires forall i :: 0 <= i < |told| ==> told[i] < |log|
    decreases |told|
  {
    if told == [] then {}
    else
      var d := log[told[|told| - 1]];
      Shown(log, told[..|told| - 1]) + Elements(d.added) - Elements(d.removed)
  }

  /** In order, and every delta before `n` that is not empty. */
  ghost predicate TellsAll(log: seq<Delta>, told: seq<nat>, n: nat) {
    && n <= |log| && (forall i :: 0 <= i < |told| ==> told[i] < n)
    && (forall i, j :: 0 <= i < j < |told| ==> told[i] < told[j])
    && (forall i :: 0 <= i < n && log[i] != NOTHING ==> i in told)
  }

  lemma {:induction false} TellsRest(log: seq<Delta>, told: seq<nat>, n: nat)
    requires n > 0 && TellsAll(log, told, n)
    ensures if told != [] && told[|told| - 1] == n - 1 then TellsAll(log, told[..|told| - 1], n - 1)
            else log[n - 1] == NOTHING && TellsAll(log, told, n - 1)
  {
    if told != [] && told[|told| - 1] == n - 1 {
      var rest := told[..|told| - 1];
      forall i | 0 <= i < n - 1 && log[i] != NOTHING ensures i in rest {
        var k :| 0 <= k < |told| && told[k] == i;
        assert rest[k] == i;
      }
    } else {
      assert n - 1 !in told;
    }
  }

  lemma {:induction false} ShownAll(log: seq<Delta>, told: seq<nat>, n: nat)
    requires TellsAll(log, told, n)
    ensures Shown(log, told) == Replay(log[..n])
    decreases n
  {
    if n == 0 {
    } else {
      TellsRest(log, told, n);
      assert log[..n][..|log[..n]| - 1] == log[..n - 1] && log[..n][|log[..n]| - 1] == log[n - 1];
      if told != [] && told[|told| - 1] == n - 1 {
        ShownAll(log, told[..|told| - 1], n - 1);
      } else {
        ShownAll(log, told, n - 1);
      }
    }
  }

  /** Between updates, the observers have been told of exactly the deltas that are not empty and not lost. */
  lemma {:induction false} ToldOrLost(run: seq<Action>, i: nat)
    requires IsRun(INITIAL, run) && After(INITIAL, run).guard.NotUpdating? && i < |After(INITIAL, run).log|
    ensures var w := After(INITIAL, run); i in w.told <==> w.log[i] != NOTHING && i !in w.lost
  {
    Reachable(run);
    assert DeliveredAt(After(INITIAL, run), i);
  }

  /** A delta is lost only when the request for the details of its transactions is not sent or fails. */
  lemma {:induction false} LostOnly(w: World, a: Action, i: nat)
    requires Safe(w) && Enabled(w, a) && i in Do(w, a).lost && i !in w.lost
    ensures i + 1 == |w.log| && w.log[i] != NOTHING && i !in Do(w, a).told
    ensures (a.RequestDetails? && !a.sent) || (a.AnswerDetails? && a.failed)
  {
    if a.RequestDetails? || a.AnswerDetails? {
      assert ThreadOk(w, a.t) && RequestOk(w, a.id) && DeliveredAt(w, i);
    } else if IsCall(a) {
      CallSameData(w, a);
      assert false;
    } else if !a.Apply? {
      QuietDelivers(w, a);
      assert false;
    }
  }

  /** The action keeps a delta that is not empty from the observers. */
  predicate Loses(w: World, a: Action)
    requires Enabled(w, a)
  {
    || (a.RequestDetails? && !a.sent && Delta(PcOf(w, a.t).added, PcOf(w, a.t).removed) != NOTHING)
    || (a.AnswerDetails? && a.failed && Delta(w.requests[a.id].added, w.requests[a.id].removed) != NOTHING)
  }

  /** In this run the details of some transactions are asked for in vain: the request is not sent, or the node
      answers it with an error. */
  ghost predicate DetailsMissed(w: World, run: seq<Action>)
    requires IsRun(w, run)
    decreases |run|
  {
    run != [] && (Loses(w, run[0]) || DetailsMissed(Do(w, run[0]), run[1..]))
  }

  lemma {:induction false} StepLoses(w: World, a: Action)
    requires Enabled(w, a)
    ensures Do(w, a).lost == {} <==> w.lost == {} && !Loses(w, a)
  {
    if IsCall(a) {
      CallSameData(w, a);
    }
  }

  lemma {:induction false} RunLoses(w: World, run: seq<Action>)
    requires IsRun(w, run)
    ensures After(w, run).lost == {} <==> w.lost == {} && !DetailsMissed(w, run)
    decreases |run|
  {
    if run == [] {
    } else {
      StepLoses(w, run[0]);
      RunLoses(Do(w, run[0]), run[1..]);
    }
  }

  lemma {:induction false} LostUntold(w: World, i: nat)
    requires LogOk(w) && !Delivering(w)
    ensures i in w.lost <==> i < |w.log| && w.log[i] != NOTHING && i !in w.told
  {
    assert DeliveredAt(w, i);
  }

  lemma {:induction false} NoneLost(w: World)
    requires LogOk(w) && !Delivering(w)
    ensures TellsAll(w.log, w.told, |w.log|) <==> w.lost == {}
  {
    if w.lost == {} {
      forall i | 0 <= i < |w.log| && w.log[i] != NOTHING ensures i in w.told {
        LostUntold(w, i);
      }
    } else {
      var i :| i in w.lost;
      LostUntold(w, i);
    }
  }

  /** Between updates the observers have been told every delta exactly if the details of none were asked for in
      vain, and then what they were told adds up to the known pool. */
  lemma {:induction false} ObserversCurrent(run: seq<Action>)
    requires IsRun(INITIAL, run) && After(INITIAL, run).guard.NotUpdating?
    ensures var w := After(INITIAL, run);
      && (TellsAll(w.log, w.told, |w.log|) <==> !DetailsMissed(INITIAL, run))
      && (!DetailsMissed(INITIAL, run) ==> Shown(w.log, w.told) == w.known)
  {
    Reachable(run);
    RunLoses(INITIAL, run);
    var w := After(INITIAL, run);
    NoneLost(w);
    if w.lost == {} {
      ShownAll(w.log, w.told, |w.log|);
      assert w.log[..|w.log|] == w.log;
    }
  }

  /** A longer run. */
  lemma {:induction false} Then(w: World, run: seq<Action>, a: Action)
    requires IsRun(w, run) && Enabled(After(w, run), a)
    ensures IsRun(w, run + [a]) && After(w, run + [a]) == Do(After(w, run), a)
    decreases |run|
  {
    if run == [] {
      assert (run + [a])[1..] == [];
    } else {
      assert (run + [a])[0] == run[0] && (run + [a])[1..] == run[1..] + [a];
      Then(Do(w, run[0]), run[1..], a);
    }
  }

  /** Some run leads here. */
  ghost predicate Reached(w: World) {
    !w.terminated && exists run :: IsRun(INITIAL, run) && After(INITIAL, run) == w
  }

  lemma {:induction false} Next(w: World, a: Action) returns (v: World)
    requires Reached(w) && Enabled(w, a) && !Do(w, a).terminated
    ensures v == Do(w, a) && Reached(v)
  {
    var run :| IsRun(INITIAL, run) && After(INITIAL, run) == w;
    Then(INITIAL, run, a);
    v := Do(w, a);
  }

  predicate SameFlags(w: World, v: World) {
    v.synchronized == w.synchronized && v.observers == w.observers
  }

  lemma {:induction false} Opened() returns (w: World)
    ensures Reached(w) && w == INITIAL.(synchronized := true, observers := 1)
  {
    assert IsRun(INITIAL, []) && After(INITIAL, []) == INITIAL;
    w := Next(INITIAL, SetSynchronized(true));
    w := Next(w, SetObservers(1));
  }

  lemma {:induction false} CallReads(w: World, t: Thread) returns (v: World)
    requires Reached(w) && w.synchronized && PcOf(w, t).Idle?
    ensures Reached(v) && v == At(w, t, ReadObservers(false))
  {
    v := Next(w, Notify(t));
    v := Next(v, CheckSynchronized(t));
  }

  lemma {:induction false} CallBegins(w: World, t: Thread) returns (v: World)
    requires Reached(w) && w.synchronized && w.observers != 0 && PcOf(w, t).Idle?
    ensures Reached(v) && v.guard == w.guard && v.mutex == w.mutex && v.threads == w.threads[t := BeginLoad(false)]
    ensures v.requests == w.requests && SameData(w, v) && SameFlags(w, v)
  {
    v := CallReads(w, t);
    v := Next(v, CheckObservers(t));
  }

  lemma {:induction false} CallOpens(w: World, t: Thread) returns (v: World)
    requires Reached(w) && PcOf(w, t).BeginLoad? && w.guard.NotUpdating?
    ensures Reached(v) && v.guard == Updating && v.mutex == w.mutex
    ensures v.threads == w.threads[t := WantLock(PcOf(w, t).rerun)]
    ensures v.requests == w.requests && SameData(w, v) && SameFlags(w, v)
  {
    v := Next(w, LoadBegin(t));
    v := Next(v, TryBegin(t, false));
  }

  lemma {:induction false} CallLocks(w: World, t: Thread) returns (v: World)
    requires Reached(w) && PcOf(w, t).BeginLoad? && w.guard.NotUpdating? && w.mutex.None?
    ensures Reached(v) && v.guard == Updating && v.threads == w.threads[t := SendDiff(PcOf(w, t).rerun)]
    ensures v.requests == w.requests && SameData(w, v) && SameFlags(w, v)
  {
    v := CallOpens(w, t);
    v := Next(v, TakeMutex(t));
  }

  lemma {:induction false} CallSends(w: World, t: Thread, id: RequestId) returns (v: World)
    requires Reached(w) && PcOf(w, t).BeginLoad? && w.guard.NotUpdating? && w.mutex.None? && id !in w.requests
    ensures Reached(v) && v.guard == Updating && v.threads == w.threads[t := Leave]
    ensures v.requests == w.requests[id := DiffRequest(w.known)] && SameData(w, v) && SameFlags(w, v)
  {
    v := CallLocks(w, t);
    v := Next(v, RequestDiff(t, id, true));
  }

  lemma {:induction false} CallAsks(w: World, t: Thread, id: RequestId) returns (v: World)
    requires Reached(w) && PcOf(w, t).BeginLoad? && w.guard.NotUpdating? && w.mutex.None? && id !in w.requests
    ensures Reached(v) && v.guard == Updating && v.mutex.None? && v.threads == w.threads[t := Idle]
    ensures v.requests == w.requests[id := DiffRequest(w.known)] && SameData(w, v) && SameFlags(w, v)
  {
    v := CallSends(w, t, id);
    v := Next(v, Unlock(t));
  }

  lemma {:induction false} AnswerLocks(w: World, t: Thread, id: RequestId, incoming: seq<Hash>) returns (v: World)
    requires Reached(w) && PcOf(w, t).Idle? && w.mutex.None? && id in w.requests && w.requests[id].DiffRequest?
    ensures Reached(v) && v.guard == w.guard
    ensures v.threads == w.threads[t := DiffApply(w.requests[id].asked, incoming, [])]
    ensures v.requests == w.requests - {id} && SameData(w, v)
  {
    v := Next(w, AnswerDiff(t, id, false, incoming, []));
    v := Next(v, TakeMutex(t));
  }

  lemma {:induction false} AnswerApplies(w: World, t: Thread, id: RequestId, incoming: seq<Hash>) returns (v: World)
    requires Reached(w) && PcOf(w, t).Idle? && w.mutex.None? && id in w.requests && w.requests[id].DiffRequest?
    ensures Reached(v) && v.guard == w.guard && v.threads == w.threads[t := SendDetails(Added(w.known, incoming), [])]
    ensures v.requests == w.requests - {id} && v.known == w.known + Elements(incoming) && v.told == w.told
  {
    v := AnswerLocks(w, t, id, incoming);
    v := Next(v, Apply(t));
  }

  lemma {:induction false} DetailsFail(w: World, t: Thread, u: Thread, id: RequestId) returns (v: World)
    requires Reached(w) && t != u && PcOf(w, t).SendDetails? && PcOf(w, u).Idle? && id !in w.requests
    ensures Reached(v) && v.guard == w.guard && PcOf(v, u) == EndTry(w.guard)
    ensures v.known == w.known && v.told == w.told
  {
    v := Next(w, RequestDetails(t, id, true));
    v := Next(v, Unlock(t));
    v := Next(v, AnswerDetails(u, id, true));
    v := Next(v, LoadEnd(u));
  }

  /** When the node fails to give the details, the known pool has changed all the same: the update ends,
      and the observers, told nothing, are left with another pool than the known one. */
  lemma {:induction false} ObserversBehind(h: Hash) returns (w: World)
    ensures Reached(w) && w.guard.NotUpdating? && w.known == {h} && w.told == [] && Shown(w.log, w.told) != w.known
  {
    w := Opened();
    w := CallBegins(w, 0);
    w := CallAsks(w, 0, 0);
    w := AnswerApplies(w, 1, 0, [h]);
    w := DetailsFail(w, 1, 2, 0);
    w := Next(w, TryEnd(2, false));
  }

  lemma {:induction false} CallRefused(w: World, t: Thread) returns (v: World)
    requires Reached(w) && PcOf(w, t).BeginLoad? && w.guard == Updating
    ensures Reached(v) && v.guard == UpdateRequired && v.mutex == w.mutex && v.threads == w.threads[t := Idle]
    ensures v.requests == w.requests && SameFlags(w, v)
  {
    v := Next(w, LoadBegin(t));
    v := Next(v, TryBegin(t, false));
  }

  lemma {:induction false} ErrorReruns(w: World, t: Thread, id: RequestId) returns (v: World)
    requires Reached(w) && PcOf(w, t).Idle? && w.guard == UpdateRequired
    requires id in w.requests && w.requests[id].DiffRequest?
    ensures Reached(v) && v.guard == NotUpdating && v.mutex == w.mutex && PcOf(v, t) == ReadSync(true)
    ensures SameFlags(w, v)
  {
    v := Next(w, AnswerDiff(t, id, true, [], []));
    v := Next(v, LoadEnd(t));
    v := Next(v, TryEnd(t, false));
  }

  lemma {:induction false} RerunBegins(w: World, t: Thread) returns (v: World)
    requires Reached(w) && w.synchronized && w.observers != 0 && PcOf(w, t) == ReadSync(true)
    ensures Reached(v) && v.guard == w.guard && v.mutex == w.mutex && PcOf(v, t) == BeginLoad(true)
  {
    v := Next(w, CheckSynchronized(t));
    v := Next(v, CheckObservers(t));
  }

  lemma {:induction false} TwoCalls() returns (w: World)
    ensures Reached(w) && w.guard == UpdateRequired && w.mutex.None? && PcOf(w, 2).Idle?
    ensures w.synchronized && w.observers != 0 && 0 in w.requests && w.requests[0].DiffRequest?
  {
    w := Opened();
    w := CallBegins(w, 0);
    w := CallAsks(w, 0, 0);
    w := CallBegins(w, 1);
    w := CallRefused(w, 1);
  }

  lemma {:induction false} Unused(used: set<nat>) returns (n: nat)
    ensures n !in used
  {
    var rest := used;
    n := 0;
    while rest != {}
      invariant forall i :: i in used ==> i < n || i in rest
    {
      var i :| i in rest;
      rest := rest - {i};
      n := if i < n then n else i + 1;
    }
  }

  /** Two notifications, an error and a request that throws are enough: thread 1 is refused, thread 2 brings the
      error and re-runs for it. */
  lemma {:induction false} ProgramEnds() returns (run: seq<Action>)
    ensures IsRun(INITIAL, run) && After(INITIAL, run).terminated
  {
    var w := TwoCalls();
    w := ErrorReruns(w, 2, 0);
    w := RerunBegins(w, 2);
    w := CallLocks(w, 2);
    var before :| IsRun(INITIAL, before) && After(INITIAL, before) == w;
    var id := Unused(w.requests.Keys);
    Then(INITIAL, before, RequestDiff(2, id, false));
    run := before + [RequestDiff(2, id, false)];
  }

  // ----- an open update can always be brought to its end -----

  /** How many actions of its own the open update needs to end, when every answer is a failure. */
  function Remaining(w: World): nat {
    match w.owner
    case Nobody => 0
    case ByRequest(_) => 4
    case ByThread(t) =>
      var pc := PcOf(w, t);
      match pc
      case EndTry(seen) => if seen == w.guard then 1 else 2
      case EndLoad => 3
      case Abort => 4
      case SendDiff(_) => 5
      case SendDetails(_, _) => 5
      case WantLock(_) => 6
      case DiffApply(_, _, _) => 6
      case DiffWantLock(_, _, _) => 7
      case _ => 0
  }

  /** A thread that holds the mutex without seeing to the update has only to unlock it. */
  function Rank(w: World): nat {
    2 * Remaining(w) + if w.mutex.Some? && w.owner != ByThread(w.mutex.value) then 1 else 0
  }

  predicate Advances(w: World, v: World) {
    !v.terminated &&
    (v.ended == w.ended + 1 || (v.ended == w.ended && !v.owner.Nobody? && Rank(v) < Rank(w)))
  }

  lemma {:induction false} NextAction(w: World) returns (a: Action)
    requires Inv(w) && !w.owner.Nobody? && !w.terminated
    ensures Enabled(w, a) && Advances(w, Do(w, a))
  {
    if w.mutex.Some? && w.owner != ByThread(w.mutex.value) {
      assert ThreadOk(w, w.mutex.value);
      a := Unlock(w.mutex.value);
    } else if w.owner.ByRequest? {
      a := AnswerFailed(w);
    } else {
      a := OwnAction(w, w.owner.thread);
    }
  }

  lemma {:induction false} AnswerFailed(w: World) returns (a: Action)
    requires Inv(w) && w.owner.ByRequest? && w.mutex.None? && !w.terminated
    ensures Enabled(w, a) && Advances(w, Do(w, a))
  {
    var t := Unused(w.threads.Keys);
    assert RequestOk(w, w.owner.id);
    a := if w.requests[w.owner.id].DiffRequest? then AnswerDiff(t, w.owner.id, true, [], [])
         else AnswerDetails(t, w.owner.id, true);
  }

  lemma {:induction false} OwnAction(w: World, t: Thread) returns (a: Action)
    requires Inv(w) && w.owner == ByThread(t) && (w.mutex.Some? ==> w.mutex.value == t) && !w.terminated
    ensures Enabled(w, a) && Advances(w, Do(w, a))
  {
    assert ThreadOk(w, t) && RequestOk(w, 0);
    match PcOf(w, t)
    case WantLock(_) => a := TakeMutex(t);
    case SendDiff(_) => a := RequestDiff(t, 0, true);
    case DiffWantLock(_, _, _) => a := TakeMutex(t);
    case DiffApply(_, _, _) => a := Apply(t);
    case SendDetails(_, _) => a := RequestDetails(t, 0, false);
    case _ => a := LastActions(w, t);
  }

  lemma {:induction false} LastActions(w: World, t: Thread) returns (a: Action)
    requires Inv(w) && w.owner == ByThread(t) && (w.mutex.Some? ==> w.mutex.value == t) && !w.terminated
    requires PcOf(w, t).Abort? || PcOf(w, t).EndLoad? || PcOf(w, t).EndTry?
    ensures Enabled(w, a) && Advances(w, Do(w, a))
  {
    assert ThreadOk(w, t);
    match PcOf(w, t)
    case Abort => a := Unlock(t);
    case EndLoad => a := LoadEnd(t);
    case EndTry(_) => a := TryEnd(t, false);
  }

  /** From every safe world with an open update some run ends that update: neither the mutex, nor the
      guard, nor a lost handler can block it. */
  lemma {:induction false} CanEnd(w: World) returns (run: seq<Action>)
    requires Safe(w) && !w.owner.Nobody? && !w.terminated
    ensures IsRun(w, run) && After(w, run).ended == w.ended + 1
    decreases Rank(w)
  {
    var a := NextAction(w);
    if Do(w, a).ended == w.ended + 1 {
      run := [a];
      assert run[1..] == [];
    } else {
      StepHolds(w, a);
      StepLogged(w, a);
      var rest := CanEnd(Do(w, a));
      run := [a] + rest;
      assert run[1..] == rest;
    }
  }

  // ----- an update is never more than ten actions from its end -----

  /** The action is one of those by which the open update comes to its end. */
  predicate Own(w: World, a: Action) {
    match a
    case SetSynchronized(_) => false
    case SetObservers(_) => false
    case AnswerDiff(_, id, _, _, _) => w.owner == ByRequest(id)
    case AnswerDetails(_, id, _) => w.owner == ByRequest(id)
    case _ => w.owner == ByThread(a.t)
  }

  /** It is no compare-and-exchange that fails for no reason. */
  predicate Counts(w: World, a: Action)
    requires Enabled(w, a)
  {
    Own(w, a) && !(a.TryEnd? && a.spurious && PcOf(w, a.t).seen == w.guard)
  }

  /** The most actions of its own the open update may still take: one more as long as another thread can still
      change the guard under `endUpdate`. */
  function Most(w: World): nat {
    if w.owner.Nobody? then 0 else Steps(w) + if w.guard.Updating? then 1 else 0
  }

  function Steps(w: World): nat
    requires !w.owner.Nobody?
  {
    match w.owner
    case ByRequest(id) => if id in w.requests && w.requests[id].DiffRequest? then 7 else 3
    case ByThread(t) =>
      match PcOf(w, t)
      case EndTry(seen) => if seen == w.guard then 1 else 2
      case EndLoad => 2
      case Abort => 3
      case SendDetails(_, _) => 4
      case DiffApply(_, _, _) => 5
      case DiffWantLock(_, _, _) => 6
      case SendDiff(_) => 8
      case WantLock(_) => 9
      case _ => 0
  }

  lemma {:induction false} MostIsTen(w: World)
    ensures Most(w) <= 10
  {
  }

  ghost predicate Pays(w: World, a: Action)
    requires Enabled(w, a)
  {
    && Do(w, a).begun >= w.begun
    && Most(Do(w, a)) + (if Counts(w, a) then 1 else 0) <= Most(w) + 10 * (Do(w, a).begun - w.begun)
  }

  lemma {:induction false} BegunPays(w: World, t: Thread)
    requires Inv(w) && PcOf(w, t).BeginTry? && w.guard.NotUpdating?
    ensures Most(w) == 0 && Most(Begun(w, t)) == 10 && Begun(w, t).begun == w.begun + 1
  {
  }

  lemma {:induction false} SawAside(w: World, t: Thread, rerun: bool)
    requires w.owner != ByThread(t)
    ensures var v := BeginSaw(w, t, w.guard, rerun); Aside(w, v, t) && v.begun == w.begun && v.guard == w.guard
  {
  }

  lemma {:induction false} RefusedAside(w: World, t: Thread)
    requires w.owner != ByThread(t)
    ensures var v := At(Refused(w, t), t, Idle).(guard := UpdateRequired); Aside(w, v, t) && v.begun == w.begun
  {
  }

  /** Another thread than the one that sees to the update; it does not begin one. */
  lemma {:induction false} TryAside(w: World, t: Thread, spurious: bool)
    requires Inv(w) && PcOf(w, t).BeginTry?
    requires !(PcOf(w, t).seen.NotUpdating? && w.guard.NotUpdating? && !spurious)
    ensures var v := TryBeginStep(w, t, spurious);
      && Aside(w, v, t) && v.begun == w.begun
      && (v.guard == w.guard || (w.guard.Updating? && v.guard.UpdateRequired?))
  {
    assert ThreadOk(w, t);
    SawAside(w, t, PcOf(w, t).rerun);
    RefusedAside(w, t);
  }

  lemma {:induction false} BeginPays(w: World, t: Thread, spurious: bool)
    requires Inv(w) && Enabled(w, TryBegin(t, spurious))
    ensures Pays(w, TryBegin(t, spurious))
  {
    assert ThreadOk(w, t);
    if PcOf(w, t).seen.NotUpdating? && w.guard.NotUpdating? && !spurious {
      BegunPays(w, t);
    } else {
      TryAside(w, t, spurious);
      AsidePays(w, TryBeginStep(w, t, spurious), t);
    }
  }

  /** Another thread moves, and may set the guard to `UPDATE_REQUIRED`. */
  lemma {:induction false} AsidePays(w: World, v: World, t: Thread)
    requires Aside(w, v, t) && (v.guard == w.guard || (w.guard.Updating? && v.guard.UpdateRequired?))
    ensures Most(v) <= Most(w)
  {
  }

  lemma {:induction false} CallPays(w: World, a: Action)
    requires Inv(w) && Enabled(w, a) && IsCall(a)
    ensures Pays(w, a)
  {
    if a.TryBegin? {
      BeginPays(w, a.t, a.spurious);
    } else {
      assert ThreadOk(w, a.t);
      AsidePays(w, Do(w, a), a.t);
    }
  }

  lemma {:induction false} SendPays(w: World, a: Action)
    requires Inv(w) && Enabled(w, a) && (a.RequestDiff? || a.Apply? || a.RequestDetails?)
    ensures Pays(w, a)
  {
    assert ThreadOk(w, a.t);
  }

  lemma {:induction false} AnswerPays(w: World, a: Action)
    requires Inv(w) && Enabled(w, a) && (a.AnswerDiff? || a.AnswerDetails?)
    ensures Pays(w, a)
  {
    assert ThreadOk(w, a.t) && RequestOk(w, a.id);
  }

  lemma {:induction false} OtherPays(w: World, a: Action)
    requires Inv(w) && Enabled(w, a) && !IsCall(a)
    requires !a.RequestDiff? && !a.AnswerDiff? && !a.Apply? && !a.RequestDetails? && !a.AnswerDetails?
    ensures Pays(w, a)
  {
    if !a.SetSynchronized? && !a.SetObservers? {
      assert ThreadOk(w, a.t);
    }
  }

  lemma {:induction false} StepPays(w: World, a: Action)
    requires Inv(w) && Enabled(w, a)
    ensures Pays(w, a)
  {
    if IsCall(a) {
      CallPays(w, a);
    } else if a.RequestDiff? || a.Apply? || a.RequestDetails? {
      SendPays(w, a);
    } else if a.AnswerDiff? || a.AnswerDetails? {
      AnswerPays(w, a);
    } else {
      OtherPays(w, a);
    }
  }

  /** How many actions of updates there are in a run. */
  ghost function Work(w: World, run: seq<Action>): nat
    requires IsRun(w, run)
    decreases |run|
  {
    if run == [] then 0 else (if Counts(w, run[0]) then 1 else 0) + Work(Do(w, run[0]), run[1..])
  }

  lemma {:induction false} RunPays(w: World, run: seq<Action>)
    requires Safe(w) && IsRun(w, run)
    ensures Work(w, run) + Most(After(w, run)) <= Most(w) + 10 * (After(w, run).begun - w.begun)
    decreases |run|
  {
    if run == [] {
    } else {
      StepPays(w, run[0]);
      StepHolds(w, run[0]);
      StepLogged(w, run[0]);
      RunPays(Do(w, run[0]), run[1..]);
    }
  }

  /** Every run, whatever the threads, the node and the exchanges do, spends at most ten actions on each update
      begun. */
  lemma {:induction false} TenEach(run: seq<Action>)
    requires IsRun(INITIAL, run)
    ensures Work(INITIAL, run) <= 10 * After(INITIAL, run).begun
  {
    InitialHolds();
    RunPays(INITIAL, run);
  }

  /** And from anywhere within an update, at most ten until the next one begins. */
  lemma {:induction false} TenLeft(w: World, run: seq<Action>)
    requires Safe(w) && IsRun(w, run) && After(w, run).begun == w.begun
    ensures Work(w, run) <= Most(w) <= 10
  {
    RunPays(w, run);
    MostIsTen(w);
  }

  // ----- a call of `poolChanged` returns -----

  /** The thread has neither returned nor begun an update. */
  predicate Calling(pc: Pc) {
    pc.ReadSync? || pc.ReadObservers? || pc.BeginLoad? || pc.BeginTry?
  }

  /** The action of the thread belongs to its call, and is no exchange that fails because the guard is not as
      expected or for no reason. */
  predicate CallCounts(w: World, a: Action, t: Thread)
    requires Enabled(w, a)
  {
    && IsCall(a) && !a.Notify? && a.t == t
    && (a.TryBegin? ==> PcOf(w, t).seen.UpdateRequired? || (w.guard == PcOf(w, t).seen && !a.spurious))
  }

  /** The most actions the call may still take. */
  function CallMost(pc: Pc): nat {
    match pc
    case ReadSync(_) => 4
    case ReadObservers(_) => 3
    case BeginLoad(_) => 2
    case BeginTry(_, _) => 1
    case _ => 0
  }

  /** The action starts a call of the thread. */
  predicate Starts(w: World, a: Action, t: Thread)
    requires Enabled(w, a)
  {
    a == Notify(t) || (a.TryEnd? && a.t == t && PcOf(Do(w, a), t).ReadSync?)
  }

  ghost predicate CallPaysFor(w: World, a: Action, t: Thread)
    requires Enabled(w, a)
  {
    CallMost(PcOf(Do(w, a), t)) + (if CallCounts(w, a, t) then 1 else 0)
    <= CallMost(PcOf(w, t)) + if Starts(w, a, t) then 4 else 0
  }

  lemma {:induction false} TryCallPays(w: World, t: Thread, spurious: bool)
    requires Enabled(w, TryBegin(t, spurious))
    ensures CallPaysFor(w, TryBegin(t, spurious), t)
  {
    var pc := PcOf(w, t);
    if !pc.seen.UpdateRequired? && (w.guard != pc.seen || spurious) {
      assert TryBeginStep(w, t, spurious) == BeginSaw(w, t, w.guard, pc.rerun);
    }
  }

  lemma {:induction false} StepCallPays(w: World, a: Action, t: Thread)
    requires Enabled(w, a)
    ensures CallPaysFor(w, a, t)
  {
    if a.SetSynchronized? || a.SetObservers? || a.t != t {
      OthersStay(w, a, t);
    } else if a.TryBegin? {
      TryCallPays(w, t, a.spurious);
    }
  }

  /** How many actions of calls the thread takes, and how many calls it starts. */
  ghost function CallWork(w: World, run: seq<Action>, t: Thread): nat
    requires IsRun(w, run)
    decreases |run|
  {
    if run == [] then 0 else (if CallCounts(w, run[0], t) then 1 else 0) + CallWork(Do(w, run[0]), run[1..], t)
  }

  ghost function Calls(w: World, run: seq<Action>, t: Thread): nat
    requires IsRun(w, run)
    decreases |run|
  {
    if run == [] then 0 else (if Starts(w, run[0], t) then 1 else 0) + Calls(Do(w, run[0]), run[1..], t)
  }

  /** In every run each call takes at most four actions, failed exchanges aside: a refused call returns at once. */
  lemma {:induction false} FourEach(w: World, run: seq<Action>, t: Thread)
    requires IsRun(w, run)
    ensures CallWork(w, run, t) + CallMost(PcOf(After(w, run), t)) <= CallMost(PcOf(w, t)) + 4 * Calls(w, run, t)
    decreases |run|
  {
    if run == [] {
    } else {
      StepCallPays(w, run[0], t);
      FourEach(Do(w, run[0]), run[1..], t);
    }
  }

  /** The next action of the call; the exchange does not fail without reason. */
  function NextOf(pc: Pc, t: Thread): Action
    requires Calling(pc)
  {
    match pc
    case ReadSync(_) => CheckSynchronized(t)
    case ReadObservers(_) => CheckObservers(t)
    case BeginLoad(_) => LoadBegin(t)
    case BeginTry(_, _) => TryBegin(t, false)
  }

  /** One more for an exchange that expects what the guard no longer is. */
  function Alone(w: World, t: Thread): nat {
    CallMost(PcOf(w, t)) + if PcOf(w, t).BeginTry? && PcOf(w, t).seen != w.guard then 1 else 0
  }

  lemma {:induction false} AloneNext(w: World, t: Thread)
    requires !w.terminated && Calling(PcOf(w, t))
    ensures Enabled(w, NextOf(PcOf(w, t), t)) && !Do(w, NextOf(PcOf(w, t), t)).terminated
    ensures Alone(Do(w, NextOf(PcOf(w, t), t)), t) < Alone(w, t)
    ensures var pc := PcOf(Do(w, NextOf(PcOf(w, t), t)), t); Calling(pc) || pc.Idle? || pc.WantLock?
  {
    if PcOf(w, t).BeginTry? {
      AloneTries(w, t);
    }
  }

  lemma {:induction false} AloneTries(w: World, t: Thread)
    requires PcOf(w, t).BeginTry?
    ensures var v := TryBeginStep(w, t, false);
      && v.terminated == w.terminated && Alone(v, t) < Alone(w, t)
      && (Calling(PcOf(v, t)) || PcOf(v, t).Idle? || PcOf(v, t).WantLock?)
  {
    var pc := PcOf(w, t);
    if !pc.seen.UpdateRequired? && w.guard != pc.seen {
      assert TryBeginStep(w, t, false) == BeginSaw(w, t, w.guard, pc.rerun);
    }
  }

  /** Left alone, a call returns or begins an update within four actions of its own, whatever the others were
      stopped at: nothing it does waits for them. */
  lemma {:induction false} Returns(w: World, t: Thread) returns (run: seq<Action>)
    requires !w.terminated && Calling(PcOf(w, t))
    ensures IsRun(w, run) && |run| <= Alone(w, t) <= 4 && forall i :: 0 <= i < |run| ==> OfThread(run[i], t)
    ensures PcOf(After(w, run), t).Idle? || PcOf(After(w, run), t).WantLock?
    decreases Alone(w, t)
  {
    var a := NextOf(PcOf(w, t), t);
    AloneNext(w, t);
    var v, rest := Do(w, a), [];
    if Calling(PcOf(v, t)) {
      rest := Returns(v, t);
    }
    run := [a] + rest;
    assert run[1..] == rest;
  }

  predicate OfThread(a: Action, t: Thread) {
    !a.SetSynchronized? && !a.SetObservers? && a.t == t
  }
}
