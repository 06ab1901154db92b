/** The ledger of virtual tensor storage: views share a storage, a storage is charged once
    while any tracked tensor uses it, and model weights are never charged. */
module StorageLedger {
  import opened Sets
  import opened Numbers

  type TensorId = int
  type StorageId = int

  datatype LiveStorage = LiveStorage(size: nat, references: int)

  /** `tensors` maps each tracked tensor to its storage. */
  datatype Ledger = Ledger(tensors: map<TensorId, StorageId>,
                           storage: map<StorageId, LiveStorage>, current: int, peak: int)

  const EMPTY := Ledger(map[], map[], 0, 0)

  /** What can happen: an operation returns a tensor; a tracked tensor dies; an operation
      used native scratch memory. */
  datatype Event = Track(tensor: TensorId, storage: StorageId, size: nat)
    | Retire(tensor: TensorId) | Native(bytes: int)

  // ---------------------------------------------------- what it records

  ghost function Sharers(tensors: map<TensorId, StorageId>, s: StorageId): set<TensorId> {
    set t | t in tensors && tensors[t] == s
  }

  lemma SomeStorage(storage: map<StorageId, LiveStorage>)
    requires storage != map[]
    ensures exists s :: s in storage
  {
    var s := Pick(storage.Keys);
  }

  /** The bytes of all live storage. */
  ghost function TotalSize(storage: map<StorageId, LiveStorage>): int
    decreases storage
  {
    if storage == map[] then 0
    else
      SomeStorage(storage);
      var s :| s in storage;
      storage[s].size + TotalSize(storage - {s})
  }

  /** Every storage of a tracked tensor is live with as many references as tracked tensors
      use it, nothing else is live, no weight is live, and the charge is the live total. */
  ghost predicate Exact(l: Ledger, persistent: set<StorageId>) {
    && (forall t :: t in l.tensors ==> l.tensors[t] in l.storage)
    && (forall s :: s in l.storage ==>
          l.storage[s].references == |Sharers(l.tensors, s)| && l.storage[s].references > 0)
    && l.storage.Keys !! persistent
    && l.current == TotalSize(l.storage)
  }

  lemma {:induction false} TotalWithout(m: map<StorageId, LiveStorage>, k: StorageId)
    requires k in m
    ensures TotalSize(m) == m[k].size + TotalSize(m - {k})
    decreases m
  {
    var s :| s in m && TotalSize(m) == m[s].size + TotalSize(m - {s});
    if s != k {
      TotalWithout(m - {s}, k);
      TotalWithout(m - {k}, s);
      assert m - {s} - {k} == m - {k} - {s};
    }
  }

  lemma {:induction false} TotalWith(m: map<StorageId, LiveStorage>, k: StorageId, v: LiveStorage)
    requires k !in m
    ensures TotalSize(m[k := v]) == TotalSize(m) + v.size
  {
    TotalWithout(m[k := v], k);
    assert m[k := v] - {k} == m;
  }

  lemma {:induction false} TotalRecount(m: map<StorageId, LiveStorage>, k: StorageId, references: int)
    requires k in m
    ensures TotalSize(m[k := m[k].(references := references)]) == TotalSize(m)
  {
    var m' := m[k := m[k].(references := references)];
    TotalWithout(m, k);
    TotalWithout(m', k);
    assert m' - {k} == m - {k};
  }

  // --------------------------------------------------------------- steps

  /** `_track`, as a step of the ledger. */
  function Tracked(l: Ledger, persistent: set<StorageId>, t: TensorId, s: StorageId, size: nat): Ledger {
    if t in l.tensors || s in persistent then l
    else if s in l.storage then
      l.(storage := l.storage[s := l.storage[s].(references := l.storage[s].references + 1)],
         tensors := l.tensors[t := s])
    else
      Ledger(l.tensors[t := s], l.storage[s := LiveStorage(size, 1)], l.current + size, Max(l.peak, l.current + size))
  }

  /** `_retire`, as a step of the ledger. */
  function Retired(l: Ledger, t: TensorId): Ledger
    requires t in l.tensors && l.tensors[t] in l.storage
  {
    var s := l.tensors[t];
    var live := l.storage[s].(references := l.storage[s].references - 1);
    var rest := l.(tensors := l.tensors - {t});
    if live.references == 0 then rest.(current := l.current - live.size, storage := l.storage - {s})
    else rest.(storage := l.storage[s := live])
  }

  function Scratched(l: Ledger, bytes: int): Ledger {
    l.(peak := Max(l.peak, l.current + bytes))
  }

  /** An event can happen: only tracked tensors retire. */
  ghost predicate Enabled(l: Ledger, e: Event) {
    e.Retire? ==> e.tensor in l.tensors
  }

  ghost function Step(l: Ledger, persistent: set<StorageId>, e: Event): Ledger
    requires Exact(l, persistent) && Enabled(l, e)
  {
    match e
    case Track(t, s, size) => Tracked(l, persistent, t, s, size)
    case Retire(t) => Retired(l, t)
    case Native(bytes) => Scratched(l, bytes)
  }

  lemma {:induction false} SharersGrow(tensors: map<TensorId, StorageId>, t: TensorId, s: StorageId, x: StorageId)
    requires t !in tensors
    ensures Sharers(tensors[t := s], x) == if x == s then Sharers(tensors, x) + {t} else Sharers(tensors, x)
  {
    var after := Sharers(tensors[t := s], x);
    if x == s {
      assert after == Sharers(tensors, x) + {t};
    } else {
      assert after == Sharers(tensors, x);
    }
  }

  lemma {:induction false} TrackSharers(tensors: map<TensorId, StorageId>, t: TensorId, s: StorageId, x: StorageId)
    requires t !in tensors
    ensures Sharers(tensors[t := s], x) == if x == s then Sharers(tensors, x) + {t} else Sharers(tensors, x)
    ensures |Sharers(tensors[t := s], x)| == |Sharers(tensors, x)| + if x == s then 1 else 0
  {
    SharersGrow(tensors, t, s, x);
    assert t !in Sharers(tensors, x);
  }

  lemma {:induction false} RetireSharers(tensors: map<TensorId, StorageId>, t: TensorId, x: StorageId)
    requires t in tensors
    ensures Sharers(tensors - {t}, x) == if x == tensors[t] then Sharers(tensors, x) - {t} else Sharers(tensors, x)
    ensures |Sharers(tensors - {t}, x)| == |Sharers(tensors, x)| - if x == tensors[t] then 1 else 0
  {
    assert t in Sharers(tensors, tensors[t]);
  }

  lemma {:induction false} NoSharers(l: Ledger, persistent: set<StorageId>, s: StorageId)
    requires Exact(l, persistent) && s !in l.storage
    ensures Sharers(l.tensors, s) == {}
  {
    assert forall t :: t in l.tensors ==> l.tensors[t] != s;
  }

  lemma {:induction false} TrackCounts(l: Ledger, persistent: set<StorageId>, t: TensorId, s: StorageId, size: nat,
                                       x: StorageId)
    requires Exact(l, persistent) && t !in l.tensors && s !in persistent
    requires x in Tracked(l, persistent, t, s, size).storage
    ensures var n := Tracked(l, persistent, t, s, size);
            n.storage[x].references == |Sharers(n.tensors, x)| && n.storage[x].references > 0
  {
    TrackSharers(l.tensors, t, s, x);
    if s !in l.storage {
      NoSharers(l, persistent, s);
    }
  }

  lemma {:induction false} TrackExact(l: Ledger, persistent: set<StorageId>, t: TensorId, s: StorageId, size: nat)
    requires Exact(l, persistent)
    ensures Exact(Tracked(l, persistent, t, s, size), persistent)
  {
    var n := Tracked(l, persistent, t, s, size);
    if t !in l.tensors && s !in persistent {
      if s in l.storage {
        TotalRecount(l.storage, s, l.storage[s].references + 1);
      } else {
        TotalWith(l.storage, s, LiveStorage(size, 1));
      }
      forall x | x in n.storage
        ensures n.storage[x].references == |Sharers(n.tensors, x)| && n.storage[x].references > 0
      {
        TrackCounts(l, persistent, t, s, size, x);
      }
    }
  }

  lemma {:induction false} RetireExact(l: Ledger, persistent: set<StorageId>, t: TensorId)
    requires Exact(l, persistent) && t in l.tensors
    ensures Exact(Retired(l, t), persistent)
  {
    var s, n := l.tensors[t], Retired(l, t);
    RetireSharers(l.tensors, t, s);
    if l.storage[s].references == 1 {
      TotalWithout(l.storage, s);
      forall u | u in n.tensors ensures n.tensors[u] in n.storage {
        assert n.tensors[u] == s ==> u in Sharers(l.tensors - {t}, s);
      }
    } else {
      TotalRecount(l.storage, s, l.storage[s].references - 1);
    }
    forall x | x in n.storage
      ensures n.storage[x].references == |Sharers(n.tensors, x)| && n.storage[x].references > 0
    {
      RetireSharers(l.tensors, t, x);
    }
  }

  // ---------------------------------------------------------------- runs

  /** A run: the ledger before the first event and after each one, every event enabled. */
  ghost predicate IsRun(persistent: set<StorageId>, events: seq<Event>, states: seq<Ledger>) {
    && |states| == |events| + 1 && states[0] == EMPTY
    && (forall i :: 0 <= i < |events| ==> Follows(states[i], persistent, events[i], states[i + 1]))
  }

  ghost predicate Follows(l: Ledger, persistent: set<StorageId>, e: Event, n: Ledger) {
    Exact(l, persistent) ==> Enabled(l, e) && n == Step(l, persistent, e)
  }

  /** Over every interleaving of events the ledger is exact after each of them. */
  lemma {:induction false} RunExact(persistent: set<StorageId>, events: seq<Event>, states: seq<Ledger>, i: nat)
    requires IsRun(persistent, events, states) && i <= |events|
    ensures Exact(states[i], persistent)
    decreases i
  {
    if i > 0 {
      RunExact(persistent, events, states, i - 1);
      assert Follows(states[i - 1], persistent, events[i - 1], states[i]);
      match events[i - 1] {
        case Track(t, s, size) => TrackExact(states[i - 1], persistent, t, s, size);
        case Retire(t) => RetireExact(states[i - 1], persistent, t);
        case Native(_) =>
      }
    }
  }

  // ------------------------------------------- what is live, by the events alone

  /** After the first `n` events tensor `t` is tracked with storage `s`: some event opened it
      and it has not retired since. */
  ghost predicate Live(persistent: set<StorageId>, events: seq<Event>, n: nat, t: TensorId, s: StorageId)
    requires n <= |events|
    decreases n, 0
  {
    exists i: nat :: i < n && Opens(persistent, events, i, t, s) && Stays(events, i, n, t)
  }

  /** After the first `n` events tensor `t` is tracked. */
  ghost predicate Held(persistent: set<StorageId>, events: seq<Event>, n: nat, t: TensorId)
    requires n <= |events|
    decreases n, 1
  {
    exists s :: Live(persistent, events, n, t, s)
  }

  /** Event `i` returns tensor `t` on storage `s`, which is no weight, and finds it untracked. */
  ghost predicate Opens(persistent: set<StorageId>, events: seq<Event>, i: nat, t: TensorId, s: StorageId)
    requires i < |events|
    decreases i, 2
  {
    && events[i].Track? && events[i].tensor == t && events[i].storage == s && s !in persistent
    && !Held(persistent, events, i, t)
  }

  ghost predicate Stays(events: seq<Event>, i: nat, n: nat, t: TensorId)
    requires n <= |events|
  {
    forall k :: i < k < n ==> events[k] != Retire(t)
  }

  lemma {:induction false} LiveStep(persistent: set<StorageId>, events: seq<Event>, n: nat, t: TensorId, s: StorageId)
    requires n < |events|
    ensures Live(persistent, events, n + 1, t, s) <==>
            Opens(persistent, events, n, t, s) || (Live(persistent, events, n, t, s) && events[n] != Retire(t))
  {
    forall i: nat | i < n && Stays(events, i, n + 1, t) ensures Stays(events, i, n, t) && events[n] != Retire(t) {
    }
    forall i: nat | i < n && Opens(persistent, events, i, t, s) && Stays(events, i, n, t) && events[n] != Retire(t)
      ensures Stays(events, i, n + 1, t)
    {
    }
    if Opens(persistent, events, n, t, s) {
      assert Stays(events, n, n + 1, t);
    }
  }

  /** At every point of a run the ledger tracks exactly the live tensors, each with its storage. */
  lemma {:induction false} TrackedAreLive(persistent: set<StorageId>, events: seq<Event>, states: seq<Ledger>, n: nat)
    requires IsRun(persistent, events, states) && n <= |events|
    ensures forall t, s :: Live(persistent, events, n, t, s) <==> t in states[n].tensors && states[n].tensors[t] == s
    decreases n
  {
    if n > 0 {
      var before, e := states[n - 1], events[n - 1];
      TrackedAreLive(persistent, events, states, n - 1);
      RunExact(persistent, events, states, n - 1);
      assert Follows(before, persistent, e, states[n]);
      forall t ensures Held(persistent, events, n - 1, t) <==> t in before.tensors {
        assert t in before.tensors ==> Live(persistent, events, n - 1, t, before.tensors[t]);
      }
      forall t, s
        ensures Live(persistent, events, n, t, s) <==> t in states[n].tensors && states[n].tensors[t] == s
      {
        LiveStep(persistent, events, n - 1, t, s);
      }
    }
  }

  /** `users` are the live tensors of storage `s`. */
  ghost predicate UsersOf(persistent: set<StorageId>, events: seq<Event>, n: nat, s: StorageId, users: set<TensorId>)
    requires n <= |events|
  {
    forall t :: t in users <==> Live(persistent, events, n, t, s)
  }

  ghost predicate InUse(persistent: set<StorageId>, events: seq<Event>, n: nat, s: StorageId)
    requires n <= |events|
  {
    exists t :: Live(persistent, events, n, t, s)
  }

  /** A storage is live exactly while a live tensor uses it, with as many references as there
      are such tensors. */
  lemma {:induction false} ReferencesAreLive(persistent: set<StorageId>, events: seq<Event>, states: seq<Ledger>,
                                             n: nat, s: StorageId)
    requires IsRun(persistent, events, states) && n <= |events|
    ensures s in states[n].storage <==> InUse(persistent, events, n, s)
    ensures s in states[n].storage ==>
              exists users :: UsersOf(persistent, events, n, s, users) && states[n].storage[s].references == |users|
  {
    TrackedAreLive(persistent, events, states, n);
    RunExact(persistent, events, states, n);
    var users := Sharers(states[n].tensors, s);
    assert UsersOf(persistent, events, n, s, users);
    if s in states[n].storage {
      var t := Pick(users);
      assert Live(persistent, events, n, t, s);
    }
  }

  /** Event `i` found storage `s` unused, and it has been in use ever since. */
  ghost predicate OpensStorage(persistent: set<StorageId>, events: seq<Event>, i: nat, n: nat, s: StorageId)
    requires n <= |events|
  {
    && i < n && events[i].Track? && Opens(persistent, events, i, events[i].tensor, s)
    && !InUse(persistent, events, i, s)
    && (forall k: nat :: i < k <= n ==> InUse(persistent, events, k, s))
  }

  /** The size of a live storage is the one it was opened with. */
  lemma {:induction false} SizeIsOpening(persistent: set<StorageId>, events: seq<Event>, states: seq<Ledger>,
                                         n: nat, s: StorageId)
    returns (i: nat)
    requires IsRun(persistent, events, states) && n <= |events| && s in states[n].storage
    ensures OpensStorage(persistent, events, i, n, s) && states[n].storage[s].size == events[i].size
    decreases n
  {
    var before := states[n - 1];
    RunExact(persistent, events, states, n - 1);
    assert Follows(before, persistent, events[n - 1], states[n]);
    ReferencesAreLive(persistent, events, states, n - 1, s);
    ReferencesAreLive(persistent, events, states, n, s);
    if s in before.storage {
      i := SizeIsOpening(persistent, events, states, n - 1, s);
    } else {
      i := n - 1;
      TrackedAreLive(persistent, events, states, n - 1);
    }
  }

  /** The charge an event's state stands for: the live total, plus scratch if it used any. */
  ghost function Level(states: seq<Ledger>, events: seq<Event>, i: nat): int
    requires i < |events| && |states| == |events| + 1
  {
    states[i + 1].current + if events[i].Native? then events[i].bytes else 0
  }

  /** The peak is the greatest level ever reached, counting the empty start: no level of the
      run exceeds it, and it is 0 or the level of some event. */
  lemma {:induction false} PeakIsGreatestLevel(persistent: set<StorageId>, events: seq<Event>, states: seq<Ledger>,
                                               n: nat)
    requires IsRun(persistent, events, states) && n <= |events|
    ensures states[n].peak >= 0 && states[n].peak >= states[n].current
    ensures forall i :: 0 <= i < n ==> Level(states, events, i) <= states[n].peak
    ensures states[n].peak == 0 || exists i :: 0 <= i < n && Level(states, events, i) == states[n].peak
    decreases n
  {
    if n > 0 {
      var before, e, after := states[n - 1], events[n - 1], states[n];
      PeakIsGreatestLevel(persistent, events, states, n - 1);
      RunExact(persistent, events, states, n - 1);
      assert Follows(before, persistent, e, after);
      if after.peak != before.peak {
        assert Level(states, events, n - 1) == after.peak;
      }
    }
  }

  // --------------------------------------------------------------- class

  /** `_VirtualAllocations`: the ledger as mutable state. */
  class VirtualAllocations {
    const persistent: set<StorageId>
    var tensors: map<TensorId, StorageId>
    var storage: map<StorageId, LiveStorage>
    var current: int
    var peak: int

    ghost function State(): Ledger
      reads this
    {
      Ledger(tensors, storage, current, peak)
    }

    ghost predicate Valid()
      reads this
    {
      Exact(State(), persistent)
    }

    constructor (persistent: set<StorageId>)
      ensures Valid() && this.persistent == persistent && State() == EMPTY
    {
      this.persistent := persistent;
      tensors, storage, current, peak := map[], map[], 0, 0;
    }

    method Track(t: TensorId, s: StorageId, size: nat)
      requires Valid()
      modifies this
      ensures Valid() && State() == Step(old(State()), persistent, Event.Track(t, s, size))
    {
      TrackExact(State(), persistent, t, s, size);
      if t in tensors || s in persistent {
        return;
      }
      if s in storage {
        storage := storage[s := storage[s].(references := storage[s].references + 1)];
      } else {
        storage := storage[s := LiveStorage(size, 1)];
        current := current + size;
        peak := Max(peak, current);
      }
      tensors := tensors[t := s];
    }

    /** The weak-reference callback of a tracked tensor. */
    method Retire(t: TensorId)
      requires Valid() && t in tensors
      modifies this
      ensures Valid() && State() == Step(old(State()), persistent, Event.Retire(t))
    {
      RetireExact(State(), persistent, t);
      var s := tensors[t];
      tensors := tensors - {t};
      storage := storage[s := storage[s].(references := storage[s].references - 1)];
      if storage[s].references == 0 {
        current := current - storage[s].size;
        assert storage - {s} == old(storage) - {s};
        storage := storage - {s};
      }
    }

    /** The native-scratch update after an operation. */
    method ObserveNative(bytes: int)
      requires Valid()
      modifies this
      ensures Valid() && State() == Step(old(State()), persistent, Event.Native(bytes))
    {
      peak := Max(peak, current + bytes);
    }
  }
}
