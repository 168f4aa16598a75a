/** The round-robin run-slot scheduler: `FairScheduler` of
    crates/engine-api/src/concurrency.rs.

    `FairScheduler` is the mutex-guarded object, one method per critical
    section. `Sys` adds what lives outside the mutex - guards, channels that
    hold an undelivered grant, waiters whose timer fired - and `Step` lists the
    atomic steps any interleaving is made of. */
module Scheduler {
  import opened Base

  type Key = string
  type Id = nat

  /** `SchedulerState`: a waiter is represented by its id, which also names
      its one-shot channel. */
  datatype State = State(active: int, queues: map<Key, seq<Id>>, order: seq<Key>)

  // ---------------------------------------------------------------- the code

  function Enqueue(s: State, key: Key, id: Id): State {
    State(s.active,
          s.queues[key := if key in s.queues then s.queues[key] + [id] else [id]],
          if key in s.queues then s.order else s.order + [key])
  }

  /** The state after `wake_next` and the waiter it sent a slot to, if any. */
  function WakeNext(s: State): (State, Option<Id>)
    decreases |s.order|
  {
    if s.order == [] then (s, None)
    else
      var key, rest := s.order[0], s.order[1..];
      if key !in s.queues then WakeNext(s.(order := rest))
      else if s.queues[key] == [] then WakeNext(State(s.active, s.queues - {key}, rest))
      else
        var q := s.queues[key];
        if |q| == 1 then (State(s.active + 1, s.queues - {key}, rest), Some(q[0]))
        else (State(s.active + 1, s.queues[key := q[1..]], rest + [key]), Some(q[0]))
  }

  function RemoveWaiter(s: State, key: Key, id: Id): State {
    if key !in s.queues then s
    else
      var q := Without(s.queues[key], id);
      if q == [] then State(s.active, s.queues - {key}, Without(s.order, key))
      else s.(queues := s.queues[key := q])
  }

  class FairScheduler {
    const total: nat
    var active: int
    var queues: map<Key, seq<Id>>
    var order: seq<Key>

    constructor (slots: nat)
      ensures total == slots && Now() == State(0, map[], [])
    {
      total, active, queues, order := slots, 0, map[], [];
    }

    ghost function Now(): State
      reads this
    {
      State(active, queues, order)
    }

    /** `acquire` up to its wait: a slot at once, or a place in the queue. */
    method Enter(key: Key, id: Id) returns (held: bool)
      modifies this
      ensures held == (old(active) < total)
      ensures Now() == if held then old(Now()).(active := old(active) + 1)
                       else Enqueue(old(Now()), key, id)
    {
      if active < total {
        active := active + 1;
        return true;
      }
      if key !in queues {
        order := order + [key];
        queues := queues[key := []];
      }
      queues := queues[key := queues[key] + [id]];
      assert key !in old(queues) ==> [] + [id] == [id];
      return false;
    }

    method Wake() returns (sent: Option<Id>)
      modifies this
      ensures (Now(), sent) == WakeNext(old(Now()))
    {
      while order != []
        invariant WakeNext(Now()) == WakeNext(old(Now()))
        decreases |order|
      {
        var key := order[0];
        order := order[1..];
        if key !in queues { continue; }
        var q := queues[key];
        if q == [] {
          queues := queues - {key};
          continue;
        }
        active := active + 1;
        sent := Some(q[0]);
        if |q| == 1 {
          queues := queues - {key};
        } else {
          queues := queues[key := q[1..]];
          order := order + [key];
        }
        return;
      }
      sent := None;
    }

    method Remove(key: Key, id: Id)
      modifies this
      ensures Now() == RemoveWaiter(old(Now()), key, id)
    {
      if key in queues {
        var q := Without(queues[key], id);
        queues := queues[key := q];
        if q == [] {
          queues := queues - {key};
          order := Without(order, key);
        }
        assert q == [] ==> queues == old(queues) - {key};
      }
    }

    /** `SlotGuard::drop`. */
    method Release() returns (sent: Option<Id>)
      modifies this
      ensures (Now(), sent) == WakeNext(old(Now()).(active := old(active) - 1))
    {
      active := active - 1;
      sent := Wake();
    }

    /** The timeout arm of `acquire`: `landed` is what `try_recv` found once
        the lock was taken again. */
    method Reconcile(key: Key, id: Id, landed: bool) returns (sent: Option<Id>)
      modifies this
      ensures landed ==> (Now(), sent) == WakeNext(old(Now()).(active := old(active) - 1))
      ensures !landed ==> Now() == RemoveWaiter(old(Now()), key, id) && sent == None
    {
      if landed {
        sent := Release();
      } else {
        Remove(key, id);
        sent := None;
      }
    }
  }

  // ---------------------------------------------------- every interleaving

  /** `holders` counts live guards, `sent` the channels holding a grant nobody
      has received, `fired` the waiters whose `recv_timeout` gave up but who
      have not taken the lock again; `keyOf` is every pending acquire. */
  datatype Sys = Sys(total: nat, s: State, holders: nat, sent: set<Id>, fired: set<Id>,
                     keyOf: map<Id, Key>, nextId: Id)

  datatype Step =
    | Acquire(key: Key)
    | Receive(id: Id)
    | Fire(id: Id)
    | Reconcile(id: Id)
    | Drop

  function Init(total: nat): Sys {
    Sys(total, State(0, map[], []), 0, {}, {}, map[], 0)
  }

  predicate Enabled(y: Sys, step: Step) {
    match step
    case Acquire(_) => true
    case Receive(id) => id in y.sent && id !in y.fired && id in y.keyOf
    case Fire(id) => id in y.keyOf && id !in y.fired
    case Reconcile(id) => id in y.fired && id in y.keyOf
    case Drop => y.holders > 0
  }

  function HandOn(y: Sys): Sys {
    var (s, w) := WakeNext(y.s.(active := y.s.active - 1));
    y.(s := s, sent := if w.Some? then y.sent + {w.value} else y.sent)
  }

  function Apply(y: Sys, step: Step): Sys
    requires Enabled(y, step)
  {
    match step
    case Acquire(key) =>
      if y.s.active < y.total
      then y.(s := y.s.(active := y.s.active + 1), holders := y.holders + 1)
      else y.(s := Enqueue(y.s, key, y.nextId), keyOf := y.keyOf[y.nextId := key], nextId := y.nextId + 1)
    case Receive(id) =>
      y.(sent := y.sent - {id}, holders := y.holders + 1, keyOf := y.keyOf - {id})
    case Fire(id) =>
      y.(fired := y.fired + {id})
    case Reconcile(id) =>
      var z := y.(fired := y.fired - {id}, keyOf := y.keyOf - {id});
      if id in y.sent then HandOn(z.(sent := y.sent - {id}))
      else z.(s := RemoveWaiter(y.s, y.keyOf[id], id))
    case Drop =>
      HandOn(y.(holders := y.holders - 1))
  }

  ghost predicate Queued(y: Sys, id: Id) {
    id in y.keyOf && y.keyOf[id] in y.s.queues && id in y.s.queues[y.keyOf[id]]
  }

  ghost predicate Increasing(q: seq<Id>) {
    forall i, j :: 0 <= i < j < |q| ==> q[i] < q[j]
  }

  /** `order` is duplicate-free and lists exactly the keys with a non-empty
      queue; ids grow along a queue, so a queue is served first in first out. */
  ghost predicate Shape(s: State) {
    && NoDup(s.order)
    && (forall k :: k in s.order <==> k in s.queues)
    && (forall k :: k in s.queues ==> s.queues[k] != [] && Increasing(s.queues[k]))
  }

  /** Queued ids and undelivered grants are disjoint and together are exactly
      the pending acquires, each queued under its own key. */
  ghost predicate Linked(y: Sys) {
    && (forall k, id :: k in y.s.queues && id in y.s.queues[k] ==> id in y.keyOf && y.keyOf[id] == k && id !in y.sent)
    && (forall id :: id in y.keyOf ==> id < y.nextId && (id in y.sent || Queued(y, id)))
    && (forall id :: id in y.sent || id in y.fired ==> id in y.keyOf)
  }

  /** `owed` counts slots taken back but not yet handed on: 0 between steps,
      1 inside a critical section. */
  ghost predicate Consistent(y: Sys, owed: nat) {
    && y.s.active == y.holders + |y.sent| + owed <= y.total
    && Shape(y.s) && Linked(y)
    && (y.s.order != [] ==> y.s.active == y.total)
  }

  ghost predicate Inv(y: Sys) {
    Consistent(y, 0)
  }

  /** In a well-shaped state `wake_next` serves the head of the first key. */
  lemma WakeFront(s: State)
    requires Shape(s)
    ensures s.order == [] ==> WakeNext(s) == (s, None)
    ensures s.order != [] ==>
              var k := s.order[0];
              k in s.queues && s.queues[k] != [] && WakeNext(s).1 == Some(s.queues[k][0])
              && WakeNext(s).0 == (if |s.queues[k]| == 1 then State(s.active + 1, s.queues - {k}, s.order[1..])
                                   else State(s.active + 1, s.queues[k := s.queues[k][1..]], s.order[1..] + [k]))
    ensures Shape(WakeNext(s).0)
  {
    if s.order != [] {
      var k := s.order[0];
      assert k in s.order;
      assert forall x :: x in s.order[1..] <==> x in s.order && x != k;
    }
  }

  /** Popping the head of a queue moves one id from the queue to the grants. */
  lemma PopLinked(y: Sys, z: Sys, k: Key)
    requires Shape(y.s) && Linked(y) && k in y.s.queues
    requires z.keyOf == y.keyOf && z.fired == y.fired && z.nextId == y.nextId
    requires z.sent == y.sent + {y.s.queues[k][0]}
    requires z.s.queues == (if |y.s.queues[k]| == 1 then y.s.queues - {k} else y.s.queues[k := y.s.queues[k][1..]])
    ensures Linked(z) && y.s.queues[k][0] !in y.sent
  {
    var q := y.s.queues[k];
    assert q[0] in q;
    assert forall id :: id in q <==> id == q[0] || id in q[1..];
    forall id | id in z.keyOf ensures id in z.sent || Queued(z, id) {
      assert id in y.sent || Queued(y, id);
    }
    forall j, id | j in z.s.queues && id in z.s.queues[j] ensures id in z.keyOf && z.keyOf[id] == j && id !in z.sent {
      assert id in y.s.queues[j];
    }
  }

  lemma HandOnKeepsInv(y: Sys)
    requires Consistent(y, 1)
    ensures Inv(HandOn(y))
  {
    var t := y.s.(active := y.s.active - 1);
    WakeFront(t);
    if y.s.order != [] {
      PopLinked(y, HandOn(y), y.s.order[0]);
    }
  }

  lemma RemoveShape(s: State, key: Key, id: Id)
    requires Shape(s)
    ensures Shape(RemoveWaiter(s, key, id))
  {
    if key in s.queues {
      WithoutIncreasing(s.queues[key], id);
      WithoutNoDup(s.order, key);
    }
  }

  lemma RemoveLinked(y: Sys, id: Id)
    requires Linked(y) && id in y.keyOf && id !in y.sent
    ensures Linked(y.(s := RemoveWaiter(y.s, y.keyOf[id], id), fired := y.fired - {id}, keyOf := y.keyOf - {id}))
  {
    var k := y.keyOf[id];
    assert Queued(y, id);
    var q := Without(y.s.queues[k], id);
    var z := y.(s := RemoveWaiter(y.s, k, id), fired := y.fired - {id}, keyOf := y.keyOf - {id});
    forall w | w in z.keyOf ensures w in z.sent || Queued(z, w) {
      assert w in y.sent || Queued(y, w);
      if w !in y.sent && y.keyOf[w] == k { assert w in q; }
    }
  }

  lemma RemoveOnlyShrinks(s: State, key: Key, id: Id)
    ensures RemoveWaiter(s, key, id).active == s.active
    ensures RemoveWaiter(s, key, id).order != [] ==> s.order != []
  {}

  lemma RemoveKeepsInv(y: Sys, id: Id)
    requires Inv(y) && id in y.keyOf && id !in y.sent
    ensures Inv(y.(s := RemoveWaiter(y.s, y.keyOf[id], id), fired := y.fired - {id}, keyOf := y.keyOf - {id}))
  {
    hide Shape, Linked, RemoveWaiter;
    RemoveShape(y.s, y.keyOf[id], id);
    RemoveLinked(y, id);
    RemoveOnlyShrinks(y.s, y.keyOf[id], id);
  }

  lemma {:induction false} WithoutIncreasing(q: seq<Id>, id: Id)
    requires Increasing(q)
    ensures Increasing(Without(q, id))
  {
    if q != [] {
      WithoutIncreasing(q[1..], id);
      var r := Without(q[1..], id);
      forall j | 0 <= j < |r| ensures q[0] < r[j] { assert r[j] in q[1..]; }
    }
  }

  lemma EnqueueShape(s: State, key: Key, id: Id)
    requires Shape(s) && forall k, w :: k in s.queues && w in s.queues[k] ==> w < id
    ensures Shape(Enqueue(s, key, id))
  {
    var t := Enqueue(s, key, id);
    forall k | k in t.queues ensures t.queues[k] != [] && Increasing(t.queues[k]) {
      if k == key && key in s.queues {
        var q := s.queues[key];
        forall i | 0 <= i < |q| ensures q[i] < id { assert q[i] in q; }
      }
    }
  }

  lemma QueuedWasIssued(y: Sys, k: Key, w: Id)
    requires Linked(y) && k in y.s.queues && w in y.s.queues[k]
    ensures w < y.nextId
  {
    assert w in y.keyOf;
  }

  lemma QueuedWereIssued(y: Sys)
    requires Linked(y)
    ensures forall k, w :: k in y.s.queues && w in y.s.queues[k] ==> w < y.nextId
  {
    hide Linked;
    forall k, w | k in y.s.queues && w in y.s.queues[k] ensures w < y.nextId { QueuedWasIssued(y, k, w); }
  }

  lemma EnqueueLinked(y: Sys, key: Key)
    requires Linked(y)
    ensures Linked(y.(s := Enqueue(y.s, key, y.nextId), keyOf := y.keyOf[y.nextId := key], nextId := y.nextId + 1))
  {
    var id := y.nextId;
    var z := y.(s := Enqueue(y.s, key, id), keyOf := y.keyOf[id := key], nextId := id + 1);
    QueuedWereIssued(y);
    assert id !in y.keyOf && id !in y.sent;
    forall w | w in z.keyOf ensures w < z.nextId && (w in z.sent || Queued(z, w)) {
      if w == id {
        assert z.s.queues[key][|z.s.queues[key]| - 1] == id;
      } else {
        assert w in y.sent || Queued(y, w);
      }
    }
    forall k, w | k in z.s.queues && w in z.s.queues[k] ensures w in z.keyOf && z.keyOf[w] == k && w !in z.sent {
      assert k in y.s.queues && w in y.s.queues[k] ==> w in y.keyOf && w != id;
      assert (k in y.s.queues && w in y.s.queues[k]) || (k == key && w == id);
    }
  }

  lemma EnqueueKeepsInv(y: Sys, key: Key)
    requires Inv(y) && y.s.active == y.total
    ensures Inv(Apply(y, Acquire(key)))
  {
    hide Shape, Queued;
    QueuedWereIssued(y);
    EnqueueShape(y.s, key, y.nextId);
    EnqueueLinked(y, key);
    hide Linked, Enqueue;
    EnqueueActive(y.s, key, y.nextId);
  }

  lemma EnqueueActive(s: State, key: Key, id: Id)
    ensures Enqueue(s, key, id).active == s.active
  {}

  /** Taking an acquire out of the pending set, with its grant if it had one. */
  lemma SettleKeepsConsistent(y: Sys, z: Sys, id: Id, owed: nat)
    requires Inv(y) && id in y.sent
    requires z.total == y.total && z.s == y.s && z.nextId == y.nextId && z.keyOf == y.keyOf - {id}
    requires z.sent == y.sent - {id} && z.fired == y.fired - {id}
    requires z.holders + owed == y.holders + 1
    ensures Consistent(z, owed)
  {
    hide Shape;
    forall w | w in z.keyOf ensures w < z.nextId && (w in z.sent || Queued(z, w)) {
      assert w in y.sent || Queued(y, w);
    }
  }

  lemma SameQueuesConsistent(y: Sys, z: Sys, owed: nat)
    requires Inv(y) && z.total == y.total && z.s.order == y.s.order && z.s.queues == y.s.queues
    requires z.nextId == y.nextId && z.keyOf == y.keyOf && z.sent == y.sent && z.fired <= y.keyOf.Keys
    requires z.s.active == z.holders + |z.sent| + owed <= z.total
    requires z.s.order != [] ==> z.s.active == z.total
    ensures Consistent(z, owed)
  {
    forall w | w in z.keyOf ensures w < z.nextId && (w in z.sent || Queued(z, w)) {
      assert w in y.sent || Queued(y, w);
    }
  }

  /** Every atomic step keeps the invariant: slots are conserved and bounded,
      every pending acquire is queued or has its grant, and a waiter is left
      queued only while every slot is out. */
  lemma StepKeepsInv(y: Sys, step: Step)
    requires Inv(y) && Enabled(y, step)
    ensures Inv(Apply(y, step))
  {
    hide Shape, Linked, WakeNext, HandOn, RemoveWaiter, Enqueue;
    match step
    case Acquire(key) =>
      if y.s.active == y.total { EnqueueKeepsInv(y, key); }
      else { FiredPending(y); SameQueuesConsistent(y, Apply(y, step), 0); }
    case Receive(id) =>
      SettledUnfired(y, id);
      SettleKeepsConsistent(y, Apply(y, step), id, 0);
    case Fire(id) =>
      FiredPending(y);
      SameQueuesConsistent(y, Apply(y, step), 0);
    case Reconcile(id) =>
      if id in y.sent {
        var z := y.(fired := y.fired - {id}, keyOf := y.keyOf - {id}, sent := y.sent - {id});
        SettleKeepsConsistent(y, z, id, 1);
        HandOnKeepsInv(z);
      } else {
        RemoveKeepsInv(y, id);
      }
    case Drop =>
      var z := y.(holders := y.holders - 1);
      FiredPending(y);
      SameQueuesConsistent(y, z, 1);
      HandOnKeepsInv(z);
  }

  lemma FiredPending(y: Sys)
    requires Inv(y)
    ensures y.fired <= y.keyOf.Keys
  {}

  lemma SettledUnfired(y: Sys, id: Id)
    requires id !in y.fired
    ensures y.fired - {id} == y.fired
  {}

  // ------------------------------------------------------------------ runs

  predicate Runs(y: Sys, steps: seq<Step>)
    decreases |steps|
  {
    steps == [] || (Enabled(y, steps[0]) && Runs(Apply(y, steps[0]), steps[1..]))
  }

  function After(y: Sys, steps: seq<Step>): Sys
    requires Runs(y, steps)
    decreases |steps|
  {
    if steps == [] then y else After(Apply(y, steps[0]), steps[1..])
  }

  /** The waiter a step hands a freed slot to, with its key. */
  function Grant(y: Sys, step: Step): Option<(Key, Id)>
    requires Enabled(y, step)
  {
    if step.Drop? || (step.Reconcile? && step.id in y.sent) then
      var w := WakeNext(y.s.(active := y.s.active - 1)).1;
      if w.Some? && w.value in y.keyOf then Some((y.keyOf[w.value], w.value)) else None
    else None
  }

  function Grants(y: Sys, steps: seq<Step>): seq<(Key, Id)>
    requires Runs(y, steps)
    decreases |steps|
  {
    if steps == [] then []
    else
      var g := Grant(y, steps[0]);
      (if g.Some? then [g.value] else []) + Grants(Apply(y, steps[0]), steps[1..])
  }

  /** Safety over whole runs: from a fresh scheduler of any size, whatever the
      interleaving, slots out are guards plus undelivered grants and never more
      than the total; and while any waiter is queued every slot is out, so a
      free slot never sits beside a waiter nobody will wake. */
  lemma {:induction false} ReachableStatesAreSafe(y: Sys, steps: seq<Step>)
    requires Inv(y) && Runs(y, steps)
    ensures Inv(After(y, steps))
    ensures After(y, steps).total == y.total
    ensures var z := After(y, steps);
            && z.s.active == z.holders + |z.sent| <= z.total
            && (forall id :: Queued(z, id) ==> z.holders + |z.sent| == z.total)
            && (forall id :: id in z.keyOf ==> (id in z.sent) != Queued(z, id))
    decreases |steps|
  {
    if steps != [] {
      StepKeepsInv(y, steps[0]);
      ReachableStatesAreSafe(Apply(y, steps[0]), steps[1..]);
    }
  }

  lemma InitIsSafe(total: nat)
    ensures Inv(Init(total))
  {}

  // -------------------------------------------------------------- fairness

  lemma IndexUnique<T>(s: seq<T>, i: nat)
    requires NoDup(s) && i < |s|
    ensures IndexOf(s, s[i]) == i
  {}

  lemma {:induction false} IndexWithout<T(!new)>(s: seq<T>, x: T, y: T)
    requires y in s && x != y
    ensures IndexOf(Without(s, x), y) <= IndexOf(s, y)
  {
    if s[0] != y { IndexWithout(s[1..], x, y); }
  }

  lemma {:induction false} IndexAppend<T>(s: seq<T>, t: seq<T>, x: T)
    requires x in s
    ensures IndexOf(s + t, x) == IndexOf(s, x)
  {
    if s[0] != x {
      assert (s + t)[1..] == s[1..] + t;
      IndexAppend(s[1..], t, x);
    }
  }

  /** How many queue grants may go by before waiter `id`, the j-th of the i-th
      key, is served: i + j*m when at most m keys are ever pending. */
  ghost function Rank(y: Sys, id: Id, m: nat): nat
    requires Inv(y) && Queued(y, id)
  {
    IndexOf(y.s.order, y.keyOf[id]) + IndexOf(y.s.queues[y.keyOf[id]], id) * m
  }

  ghost predicate KeysAtMost(y: Sys, steps: seq<Step>, m: nat)
    requires Runs(y, steps)
    decreases |steps|
  {
    |y.s.order| <= m && (steps == [] || KeysAtMost(Apply(y, steps[0]), steps[1..], m))
  }

  /** What a granting step does to the rotation. */
  lemma GrantEffect(y: Sys, step: Step)
    requires Inv(y) && Enabled(y, step) && Grant(y, step).Some?
    ensures var (k, id) := Grant(y, step).value;
            var q, z := y.s.queues, Apply(y, step);
            && y.s.order != [] && k == y.s.order[0] && k in q && q[k] != [] && id == q[k][0]
            && z.s.order == y.s.order[1..] + (if |q[k]| == 1 then [] else [k])
            && z.s.queues == (if |q[k]| == 1 then q - {k} else q[k := q[k][1..]])
            && (forall w :: w in z.keyOf ==> w in y.keyOf && z.keyOf[w] == y.keyOf[w])
            && z.nextId == y.nextId
  {
    WakeFront(y.s.(active := y.s.active - 1));
    assert y.s.order[0] in y.s.order;
    var k := y.s.order[0];
    assert y.s.queues[k][0] in y.s.queues[k];
  }

  /** A step that grants to nobody in the queue only appends to the rotation,
      or removes one timed-out waiter from it. */
  lemma QuietEffect(y: Sys, step: Step)
    requires Inv(y) && Enabled(y, step) && Grant(y, step).None?
    ensures var z := Apply(y, step);
            || (z.s.order == y.s.order && z.s.queues == y.s.queues && z.nextId == y.nextId)
            || (step.Acquire? && z.s == Enqueue(y.s, step.key, y.nextId) && z.nextId == y.nextId + 1)
            || (step.Reconcile? && step.id in y.keyOf && z.s == RemoveWaiter(y.s, y.keyOf[step.id], step.id)
                && z.nextId == y.nextId)
    ensures forall w :: Queued(y, w) && step != Reconcile(w) ==>
              w in Apply(y, step).keyOf && Apply(y, step).keyOf[w] == y.keyOf[w]
  {
    if step.Drop? || (step.Reconcile? && step.id in y.sent) {
      WakeFront(y.s.(active := y.s.active - 1));
      if y.s.order != [] {
        assert y.s.order[0] in y.s.order;
        assert y.s.queues[y.s.order[0]][0] in y.s.queues[y.s.order[0]];
      }
    }
  }

  lemma GrantRank(y: Sys, step: Step, id: Id, m: nat)
    requires Inv(y) && Enabled(y, step) && Queued(y, id) && Inv(Apply(y, step))
    requires |y.s.order| <= m && Grant(y, step).Some?
    ensures var z := Apply(y, step);
            if Grant(y, step).value.1 == id then Rank(y, id, m) == 0
            else Queued(z, id) && Rank(z, id, m) + 1 <= Rank(y, id, m)
  {
    hide WakeNext, HandOn, Apply, Enabled, Grant, Linked;
    GrantEffect(y, step);
    StillPending(y, step, id);
    var o, k, g := y.s.order, y.s.order[0], Grant(y, step).value.1;
    if g != id {
      if y.keyOf[id] == k {
        SameKeyRank(o, y.s.queues[k], k, id, m);
      } else {
        IndexAppend(o[1..], if |y.s.queues[k]| == 1 then [] else [k], y.keyOf[id]);
      }
    }
  }

  lemma StillPending(y: Sys, step: Step, id: Id)
    requires Inv(y) && Enabled(y, step) && Queued(y, id) && Inv(Apply(y, step))
    requires Grant(y, step).Some?
    ensures y.s.order != [] && y.keyOf[id] in y.s.order
    ensures var z := Apply(y, step);
            Grant(y, step).value.1 != id ==> Queued(z, id) && z.keyOf[id] == y.keyOf[id]
    ensures y.keyOf[id] != y.s.order[0] ==> Grant(y, step).value.1 != id
  {
    GrantEffect(y, step);
    var k, g := y.s.order[0], Grant(y, step).value.1;
    assert g in y.s.queues[k];
    if step.Reconcile? { assert id !in y.sent; }
  }

  /** The head of the first key's queue is gone and the key rotated last. */
  lemma SameKeyRank(o: seq<Key>, q: seq<Id>, k: Key, id: Id, m: nat)
    requires NoDup(o) && o != [] && k == o[0] && |o| <= m
    requires id in q && q[0] != id
    ensures |q| > 1 && id in q[1..]
    ensures NoDup(o[1..] + [k]) ==>
              IndexOf(o[1..] + [k], k) + IndexOf(q[1..], id) * m + 1 <= IndexOf(o, k) + IndexOf(q, id) * m
  {
    if NoDup(o[1..] + [k]) {
      IndexUnique(o[1..] + [k], |o| - 1);
      assert (o[1..] + [k])[|o| - 1] == k;
      var d := IndexOf(q, id);
      assert d * m == (d - 1) * m + m;
    }
  }

  lemma EnqueueRank(s: State, key: Key, added: Id, k: Key, id: Id)
    requires k in s.order && k in s.queues && id in s.queues[k]
    ensures var z := Enqueue(s, key, added);
            && k in z.order && k in z.queues && id in z.queues[k]
            && IndexOf(z.order, k) == IndexOf(s.order, k)
            && IndexOf(z.queues[k], id) == IndexOf(s.queues[k], id)
  {
    IndexAppend(s.order, [key], k);
    IndexAppend(s.queues[k], [added], id);
  }

  lemma RemoveRank(s: State, j: Key, w: Id, k: Key, id: Id)
    requires k in s.order && k in s.queues && id in s.queues[k] && w != id
    ensures var z := RemoveWaiter(s, j, w);
            && k in z.order && k in z.queues && id in z.queues[k]
            && IndexOf(z.order, k) <= IndexOf(s.order, k)
            && IndexOf(z.queues[k], id) <= IndexOf(s.queues[k], id)
  {
    if j == k {
      IndexWithout(s.queues[k], w, id);
    } else {
      IndexWithout(s.order, j, k);
    }
  }

  lemma QuietRank(y: Sys, step: Step, id: Id, m: nat)
    requires Inv(y) && Enabled(y, step) && Queued(y, id) && Inv(Apply(y, step))
    requires Grant(y, step).None? && step != Reconcile(id)
    ensures var z := Apply(y, step);
            Queued(z, id) && Rank(z, id, m) <= Rank(y, id, m)
  {
    hide WakeNext, HandOn, Apply, Enabled, Grant, Enqueue, RemoveWaiter, Linked;
    QuietEffect(y, step);
    var z, k := Apply(y, step), y.keyOf[id];
    assert k in y.s.order;
    if step.Acquire? { EnqueueRank(y.s, step.key, y.nextId, k, id); }
    if step.Reconcile? && step.id in y.keyOf { RemoveRank(y.s, y.keyOf[step.id], step.id, k, id); }
    RankMonotone(IndexOf(z.s.queues[k], id), IndexOf(y.s.queues[k], id), m);
  }

  lemma RankMonotone(a: nat, b: nat, m: nat)
    requires a <= b
    ensures a * m <= b * m
  {}

  /** id is among the first r + 1 grants. */
  ghost predicate ServedWithin(g: seq<(Key, Id)>, id: Id, r: nat) {
    exists n :: 0 <= n < |g| && n <= r && g[n].1 == id
  }

  lemma ServedShift(x: seq<(Key, Id)>, h: seq<(Key, Id)>, id: Id, r: nat)
    requires ServedWithin(h, id, r)
    ensures ServedWithin(x + h, id, r + |x|)
  {
    var n :| 0 <= n < |h| && n <= r && h[n].1 == id;
    assert (x + h)[n + |x|] == h[n];
  }

  /** Bounded bypass. Over any run of any steps - arrivals, timeouts of others,
      releases - a waiter that does not give up is served among the next
      `Rank + 1` queue grants, or still waits with its rank reduced by every
      grant made. */
  lemma {:induction false} BoundedBypass(y: Sys, steps: seq<Step>, id: Id, m: nat)
    requires Inv(y) && Runs(y, steps) && Queued(y, id)
    requires KeysAtMost(y, steps, m) && Reconcile(id) !in steps
    ensures var g, z := Grants(y, steps), After(y, steps);
            || ServedWithin(g, id, Rank(y, id, m))
            || (Inv(z) && Queued(z, id) && |g| + Rank(z, id, m) <= Rank(y, id, m))
    decreases |steps|
  {
    if steps != [] {
      var step, rest := steps[0], steps[1..];
      var z := Apply(y, step);
      StepKeepsInv(y, step);
      var grant := Grant(y, step);
      var r := Rank(y, id, m);
      if grant.Some? && grant.value.1 == id {
        assert Grants(y, steps)[0].1 == id;
      } else {
        if grant.Some? { GrantRank(y, step, id, m); } else { QuietRank(y, step, id, m); }
        BoundedBypass(z, rest, id, m);
        var x, h := if grant.Some? then [grant.value] else [], Grants(z, rest);
        if ServedWithin(h, id, Rank(z, id, m)) {
          ServedShift(x, h, id, Rank(z, id, m));
          ServedSooner(x + h, id, Rank(z, id, m) + |x|, r);
        }
      }
    }
  }

  /** A step that frees a slot. */
  predicate Frees(y: Sys, step: Step) {
    step.Drop? || (step.Reconcile? && step.id in y.sent)
  }

  lemma FreedIsGranted(y: Sys, step: Step)
    requires Inv(y) && Enabled(y, step) && Frees(y, step) && y.s.order != []
    ensures Grant(y, step).Some? && Grant(y, step).value.1 in Apply(y, step).sent
    ensures |Apply(y, step).s.order| <= |y.s.order| && Apply(y, step).total == y.total
  {
    WakeFront(y.s.(active := y.s.active - 1));
    var k := y.s.order[0];
    assert k in y.s.order;
    assert y.s.queues[k][0] in y.s.queues[k];
  }

  lemma ReceivedKeeps(y: Sys, g: Id, id: Id, m: nat)
    requires Inv(y) && Enabled(y, Receive(g)) && Queued(y, id)
    ensures var z := Apply(y, Receive(g));
            Inv(z) && z.holders > 0 && z.s == y.s && z.total == y.total && Queued(z, id) && Rank(z, id, m) == Rank(y, id, m)
  {
    StepKeepsInv(y, Receive(g));
    assert id !in y.sent;
  }

  /** While a waiter is queued some slot is out that can come back: a guard's,
      or an undelivered grant's. */
  lemma SomeSlotComesBack(y: Sys, id: Id, m: nat) returns (before: seq<Step>, step: Step)
    requires Inv(y) && y.total > 0 && Queued(y, id)
    ensures |before| <= 1 && Runs(y, before) && !step.Acquire? && (forall b :: b in before ==> b.Receive?)
    ensures var z := After(y, before);
            && Inv(z) && z.s == y.s && z.total == y.total && Queued(z, id) && Rank(z, id, m) == Rank(y, id, m)
            && Enabled(z, step) && Frees(z, step)
  {
    before, step := [], Drop;
    assert y.keyOf[id] in y.s.order;
    if y.holders == 0 {
      assert |y.sent| > 0;
      var g :| g in y.sent;
      if g in y.fired {
        step := Reconcile(g);
      } else {
        before := [Receive(g)];
        ReceivedKeeps(y, g, id, m);
        assert before[1..] == [] && Runs(Apply(y, Receive(g)), []);
      }
    }
  }

  /** No waiter is stuck. From any reachable state of a scheduler with slots,
      every queued waiter is handed one by steps of the slots' owners alone, at
      most two for each grant that goes by before it. */
  lemma {:induction false} WaiterCanBeServed(y: Sys, id: Id, m: nat) returns (steps: seq<Step>)
    requires Inv(y) && y.total > 0 && Queued(y, id) && |y.s.order| <= m
    ensures Runs(y, steps) && |steps| <= 2 * (Rank(y, id, m) + 1)
    ensures forall step :: step in steps ==> !step.Acquire? && !step.Fire?
    ensures id in After(y, steps).sent
    decreases Rank(y, id, m)
  {
    hide Inv, Enabled, Apply, Grant, Frees, Queued, Rank;
    var before, step := SomeSlotComesBack(y, id, m);
    var z := After(y, before);
    assert z.s.order != [] by { QueuedKey(z, id); }
    FreedIsGranted(z, step);
    StepKeepsInv(z, step);
    GrantRank(z, step, id, m);
    var u := Apply(z, step);
    OneStep(z, step);
    RunsAppend(y, before, [step]);
    steps := before + [step];
    FreesIs(z, step);
    if Grant(z, step).value.1 != id {
      var more := WaiterCanBeServed(u, id, m);
      RunsAppend(y, steps, more);
      steps := steps + more;
    }
  }

  /** A deadline always ends its acquire and leaves nothing of it behind,
      whether or not a grant came first: no waiter, no grant, no slot held. */
  lemma GivingUpLeavesNothing(y: Sys, id: Id)
    requires Inv(y) && id in y.keyOf && id !in y.fired
    ensures Runs(y, [Fire(id)] + [Reconcile(id)])
    ensures var z := After(y, [Fire(id)] + [Reconcile(id)]);
            && Inv(z) && z.holders == y.holders && z.keyOf == y.keyOf - {id}
            && id !in z.sent && id !in z.fired && !Queued(z, id)
            && |z.sent| <= |y.sent| && (id !in y.sent ==> z.sent == y.sent)
  {
    var u := Apply(y, Fire(id));
    StepKeepsInv(y, Fire(id));
    StepKeepsInv(u, Reconcile(id));
    OneStep(y, Fire(id));
    OneStep(u, Reconcile(id));
    hide Inv, Runs, After, Shape, Linked, WakeNext, RemoveWaiter, Queued;
    RunsAppend(y, [Fire(id)], [Reconcile(id)]);
    AtMostOneSent(u, id);
    PendingOnly(Apply(u, Reconcile(id)), id);
  }

  lemma AtMostOneSent(y: Sys, id: Id)
    requires Enabled(y, Reconcile(id))
    ensures |Apply(y, Reconcile(id)).sent| <= |y.sent|
  {
    hide WakeNext, RemoveWaiter;
    if id in y.sent { assert |y.sent - {id}| == |y.sent| - 1; }
  }

  lemma PendingOnly(y: Sys, id: Id)
    requires Inv(y) && id !in y.keyOf
    ensures id !in y.sent && id !in y.fired && !Queued(y, id)
  {}

  lemma FreesIs(y: Sys, step: Step)
    requires Frees(y, step)
    ensures !step.Acquire? && !step.Fire?
  {}

  lemma QueuedKey(y: Sys, id: Id)
    requires Inv(y) && Queued(y, id)
    ensures y.keyOf[id] in y.s.order
  {}

  lemma OneStep(y: Sys, step: Step)
    requires Enabled(y, step)
    ensures Runs(y, [step]) && After(y, [step]) == Apply(y, step)
  {
    hide Enabled, Apply;
    assert [step][1..] == [] && Runs(Apply(y, step), []) && After(Apply(y, step), []) == Apply(y, step);
  }

  lemma {:induction false} RunsAppend(y: Sys, a: seq<Step>, b: seq<Step>)
    requires Runs(y, a) && Runs(After(y, a), b)
    ensures Runs(y, a + b) && After(y, a + b) == After(After(y, a), b)
    decreases |a|
  {
    hide Enabled, Apply;
    if a == [] {
      assert a + b == b;
    } else {
      assert (a + b)[1..] == a[1..] + b;
      RunsAppend(Apply(y, a[0]), a[1..], b);
    }
  }

  lemma ServedSooner(g: seq<(Key, Id)>, id: Id, r: nat, s: nat)
    requires ServedWithin(g, id, r) && r <= s
    ensures ServedWithin(g, id, s)
  {}

  function CountKey(g: seq<(Key, Id)>, k: Key): nat {
    if g == [] then 0 else (if g[0].0 == k then 1 else 0) + CountKey(g[1..], k)
  }

  ghost predicate StaysPending(y: Sys, steps: seq<Step>, k: Key)
    requires Runs(y, steps)
    decreases |steps|
  {
    k in y.s.order && (steps == [] || StaysPending(Apply(y, steps[0]), steps[1..], k))
  }

  ghost function Ahead(y: Sys, k: Key, l: Key): int
    requires k in y.s.order && l in y.s.order
  {
    if IndexOf(y.s.order, k) < IndexOf(y.s.order, l) then 1 else 0
  }

  lemma {:induction false} WithoutKeepsOrder<T(!new)>(s: seq<T>, x: T, a: T, b: T)
    requires a in s && b in s && x != a && x != b
    ensures IndexOf(Without(s, x), a) < IndexOf(Without(s, x), b) <==> IndexOf(s, a) < IndexOf(s, b)
  {
    if s[0] != a && s[0] != b { WithoutKeepsOrder(s[1..], x, a, b); }
  }

  /** Serving the first key puts it behind every other. */
  lemma AheadAfterGrant(o: seq<Key>, tail: seq<Key>, k: Key, l: Key)
    requires NoDup(o) && o != [] && k in o && l in o && k != l
    requires tail == [] || tail == [o[0]]
    requires NoDup(o[1..] + tail) && k in o[1..] + tail && l in o[1..] + tail
    ensures (IndexOf(o[1..] + tail, k) < IndexOf(o[1..] + tail, l)) <==>
            if o[0] == k then false else if o[0] == l then true else IndexOf(o, k) < IndexOf(o, l)
  {
    var z := o[1..] + tail;
    if k in o[1..] { IndexAppend(o[1..], tail, k); }
    if l in o[1..] { IndexAppend(o[1..], tail, l); }
    IndexUnique(z, |z| - 1);
  }

  lemma AheadOnGrant(y: Sys, step: Step, k: Key, l: Key)
    requires Inv(y) && Enabled(y, step) && Inv(Apply(y, step)) && k != l && Grant(y, step).Some?
    requires k in y.s.order && l in y.s.order
    requires k in Apply(y, step).s.order && l in Apply(y, step).s.order
    ensures var g := Grant(y, step).value.0;
            (if g == k then 1 else 0) - (if g == l then 1 else 0) == Ahead(y, k, l) - Ahead(Apply(y, step), k, l)
  {
    hide WakeNext, HandOn, Apply, Enabled, Grant, Linked, Increasing;
    var o := y.s.order;
    GrantEffect(y, step);
    AheadAfterGrant(o, if |y.s.queues[o[0]]| == 1 then [] else [o[0]], k, l);
    assert IndexOf(o, o[0]) == 0;
  }

  lemma EnqueueOrder(s: State, key: Key, id: Id)
    ensures Enqueue(s, key, id).order == s.order || Enqueue(s, key, id).order == s.order + [key]
  {}

  lemma RemoveOrder(s: State, key: Key, id: Id)
    ensures RemoveWaiter(s, key, id).order == s.order || RemoveWaiter(s, key, id).order == Without(s.order, key)
  {}

  lemma AheadOnQuiet(y: Sys, step: Step, k: Key, l: Key)
    requires Inv(y) && Enabled(y, step) && k != l && Grant(y, step).None?
    requires k in y.s.order && l in y.s.order
    requires k in Apply(y, step).s.order && l in Apply(y, step).s.order
    ensures Ahead(y, k, l) == Ahead(Apply(y, step), k, l)
  {
    var o := y.s.order;
    QuietEffect(y, step);
    hide WakeNext, HandOn, Apply, Enabled, Grant, Inv, Enqueue, RemoveWaiter;
    if step.Acquire? {
      EnqueueOrder(y.s, step.key, y.nextId);
      IndexAppend(o, [step.key], k);
      IndexAppend(o, [step.key], l);
    } else if step.Reconcile? && step.id in y.keyOf {
      var j := y.keyOf[step.id];
      RemoveOrder(y.s, j, step.id);
      if k != j && l != j { WithoutKeepsOrder(o, j, k, l); }
    }
  }

  lemma AheadStep(y: Sys, step: Step, k: Key, l: Key)
    requires Inv(y) && Enabled(y, step) && Inv(Apply(y, step)) && k != l
    requires k in y.s.order && l in y.s.order
    requires k in Apply(y, step).s.order && l in Apply(y, step).s.order
    ensures var g := Grant(y, step);
            (if g.Some? && g.value.0 == k then 1 else 0) - (if g.Some? && g.value.0 == l then 1 else 0)
            == Ahead(y, k, l) - Ahead(Apply(y, step), k, l)
  {
    hide *;
    if Grant(y, step).Some? { AheadOnGrant(y, step, k, l); } else { AheadOnQuiet(y, step, k, l); }
  }

  /** Even turns: while two keys both stay pending, over any run the grants
      they receive differ by at most one - exactly by who is ahead in the
      rotation before and after. */
  lemma {:induction false} EvenTurns(y: Sys, steps: seq<Step>, k: Key, l: Key)
    requires Inv(y) && Runs(y, steps) && k != l
    requires StaysPending(y, steps, k) && StaysPending(y, steps, l)
    ensures var g, z := Grants(y, steps), After(y, steps);
            && k in z.s.order && l in z.s.order
            && CountKey(g, k) - CountKey(g, l) == Ahead(y, k, l) - Ahead(z, k, l)
            && -1 <= CountKey(g, k) - CountKey(g, l) <= 1
    decreases |steps|
  {
    if steps != [] {
      StepKeepsInv(y, steps[0]);
      AheadStep(y, steps[0], k, l);
      EvenTurns(Apply(y, steps[0]), steps[1..], k, l);
      var g := Grants(y, steps);
      if Grant(y, steps[0]).Some? {
        assert g[1..] == Grants(Apply(y, steps[0]), steps[1..]);
      } else {
        assert g == Grants(Apply(y, steps[0]), steps[1..]);
      }
    }
  }

  /** No overtaking: a key that is behind `l` in the rotation, or has left it
      and may come back, gets no grant before `l` does. */
  lemma {:induction false} NoOvertaking(y: Sys, steps: seq<Step>, k: Key, l: Key)
    requires Inv(y) && Runs(y, steps) && k != l && StaysPending(y, steps, l)
    requires k in y.s.order ==> Ahead(y, l, k) == 1
    requires CountKey(Grants(y, steps), l) == 0
    ensures CountKey(Grants(y, steps), k) == 0
    decreases |steps|
  {
    if steps != [] {
      var step, z, o := steps[0], Apply(y, steps[0]), y.s.order;
      StepKeepsInv(y, step);
      var g := Grants(y, steps);
      if Grant(y, step).Some? {
        GrantEffect(y, step);
        assert g[1..] == Grants(z, steps[1..]);
        assert o[0] != k && o[0] != l;
        if k in z.s.order { assert k in o; AheadStep(y, step, l, k); }
      } else {
        assert g == Grants(z, steps[1..]);
        QuietEffect(y, step);
        if k in z.s.order {
          if k in o { AheadStep(y, step, l, k); }
          else {
            assert z.s.order == o + [k];
            IndexAppend(o, [k], l);
            IndexUnique(z.s.order, |o|);
          }
        }
      }
      NoOvertaking(z, steps[1..], k, l);
    }
  }

  /** So between two grants to one key every other key that stayed pending is
      granted to. */
  lemma BetweenTwoGrants(y: Sys, step: Step, steps: seq<Step>, k: Key, l: Key)
    requires Inv(y) && Enabled(y, step) && Grant(y, step).Some? && Grant(y, step).value.0 == k
    requires k != l && l in y.s.order && Runs(Apply(y, step), steps) && StaysPending(Apply(y, step), steps, l)
    requires CountKey(Grants(Apply(y, step), steps), k) > 0
    ensures CountKey(Grants(Apply(y, step), steps), l) > 0
  {
    hide WakeNext, HandOn, Apply, Enabled, Grant, Linked, Increasing, Grants;
    var z, o := Apply(y, step), y.s.order;
    StepKeepsInv(y, step);
    GrantEffect(y, step);
    StillThere(z, steps, l);
    if k in z.s.order { AheadAfterGrant(o, if |y.s.queues[k]| == 1 then [] else [k], l, k); }
    if CountKey(Grants(z, steps), l) == 0 { NoOvertaking(z, steps, k, l); }
  }

  lemma StillThere(y: Sys, steps: seq<Step>, l: Key)
    requires Runs(y, steps) && StaysPending(y, steps, l)
    ensures l in y.s.order
  {}

  function GrantsTo(g: seq<(Key, Id)>, k: Key): seq<Id> {
    if g == [] then []
    else (if g[0].0 == k then [g[0].1] else []) + GrantsTo(g[1..], k)
  }

  /** Every id still queued under k, or yet to be issued, is above b. */
  ghost predicate AllAbove(y: Sys, k: Key, b: int) {
    y.nextId > b && (k in y.s.queues ==> forall id :: id in y.s.queues[k] ==> id > b)
  }

  lemma AboveStep(y: Sys, step: Step, k: Key, b: int)
    requires Inv(y) && Enabled(y, step) && AllAbove(y, k, b)
    ensures AllAbove(Apply(y, step), k, b)
    ensures var g := Grant(y, step);
            g.Some? && g.value.0 == k ==> g.value.1 > b && AllAbove(Apply(y, step), k, g.value.1)
  {
    if Grant(y, step).Some? {
      GrantEffect(y, step);
      var (j, id) := Grant(y, step).value;
      assert id in y.s.queues[j];
    } else {
      QuietEffect(y, step);
    }
  }

  ghost predicate Growing(q: seq<int>) {
    forall i, j :: 0 <= i < j < |q| ==> q[i] < q[j]
  }

  /** g grows strictly from b, and what is queued under k in z is above it. */
  ghost predicate InOrderFrom(b: int, g: seq<int>, z: Sys, k: Key) {
    Growing([b] + g) && AllAbove(z, k, ([b] + g)[|g|])
  }

  lemma InOrderCons(b: int, id: int, h: seq<int>, z: Sys, k: Key)
    requires b < id && InOrderFrom(id, h, z, k)
    ensures InOrderFrom(b, [id] + h, z, k)
  {
    var t, u := [id] + h, [b] + ([id] + h);
    forall i, e | 0 <= i < e < |u| ensures u[i] < u[e] {
      assert u[e] == t[e - 1] && t[0] == id;
      if i > 0 { assert u[i] == t[i - 1]; }
    }
    assert u[|t|] == t[|h|];
  }

  lemma GrantsCons(y: Sys, steps: seq<Step>, k: Key)
    requires Runs(y, steps) && steps != []
    ensures var g := Grant(y, steps[0]);
            GrantsTo(Grants(y, steps), k)
            == (if g.Some? && g.value.0 == k then [g.value.1] else [])
               + GrantsTo(Grants(Apply(y, steps[0]), steps[1..]), k)
  {
    var g := Grant(y, steps[0]);
    var rest := Grants(Apply(y, steps[0]), steps[1..]);
    assert Grants(y, steps) == (if g.Some? then [g.value] else []) + rest;
    if g.Some? {
      assert ([g.value] + rest)[1..] == rest;
    } else {
      assert [] + rest == rest;
    }
    assert [] + GrantsTo(rest, k) == GrantsTo(rest, k);
  }

  /** First in, first out within a key: ids are issued in arrival order under
      the lock, and over any run a key's grants go to strictly growing ids, all
      below whoever of that key is still queued afterwards. */
  lemma FifoWithinKey(y: Sys, steps: seq<Step>, k: Key)
    requires Inv(y) && Runs(y, steps)
    ensures var g, z := GrantsTo(Grants(y, steps), k), After(y, steps);
            && Increasing(g)
            && (k in z.s.queues ==> forall id, i :: id in z.s.queues[k] && 0 <= i < |g| ==> g[i] < id)
  {
    NothingBelow(y, k);
    hide *;
    FifoAbove(y, steps, k, -1);
    InOrderMeans(-1, GrantsTo(Grants(y, steps), k), After(y, steps), k);
  }

  lemma NothingBelow(y: Sys, k: Key)
    ensures AllAbove(y, k, -1)
  {}

  lemma InOrderMeans(b: int, g: seq<Id>, z: Sys, k: Key)
    requires InOrderFrom(b, g, z, k)
    ensures Increasing(g)
    ensures k in z.s.queues ==> forall id, i :: id in z.s.queues[k] && 0 <= i < |g| ==> g[i] < id
  {
    var h: seq<int> := g;
    var all := [b] + h;
    assert forall i :: 0 <= i < |g| ==> g[i] == all[i + 1];
  }

  lemma {:induction false} FifoAbove(y: Sys, steps: seq<Step>, k: Key, b: int)
    requires Inv(y) && Runs(y, steps) && AllAbove(y, k, b)
    ensures InOrderFrom(b, GrantsTo(Grants(y, steps), k), After(y, steps), k)
    decreases |steps|
  {
    if steps != [] {
      var z, g := Apply(y, steps[0]), Grant(y, steps[0]);
      StepKeepsInv(y, steps[0]);
      AboveStep(y, steps[0], k, b);
      GrantsCons(y, steps, k);
      if g.Some? && g.value.0 == k {
        FifoAbove(z, steps[1..], k, g.value.1);
        InOrderCons(b, g.value.1, GrantsTo(Grants(z, steps[1..]), k), After(z, steps[1..]), k);
      } else {
        FifoAbove(z, steps[1..], k, b);
        var h := GrantsTo(Grants(z, steps[1..]), k);
        assert [] + h == h;
      }
    }
  }
}
