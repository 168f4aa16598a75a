/** The per-step concurrency bound: `StepSlots` of
    crates/engine-api/src/concurrency.rs.

    An entry is an `Arc`: sweeping it from the table does not destroy it for
    the acquires and guards that cloned it. The model keeps entries in an arena
    and the table maps keys to arena indices. */
module StepSlots {
  import opened Base

  type Key = string

  const IDLE_SECONDS: int := 600

  datatype Entry = Entry(key: Key, capacity: nat, held: int, lastSeen: int)

  function Lookup(table: map<Key, nat>, arena: seq<Entry>, key: Key, n: nat, now: int): (map<Key, nat>, seq<Entry>, nat)
    requires key in table ==> table[key] < |arena|
  {
    if key in table then (table, arena[table[key] := arena[table[key]].(lastSeen := now)], table[key])
    else (table[key := |arena|], arena + [Entry(key, n, 0, now)], |arena|)
  }

  predicate SweepKeeps(e: Entry, cutoff: int) {
    e.held > 0 || e.lastSeen >= cutoff
  }

  /** The entries once `change` more slots of one are held. */
  function Changed(arena: seq<Entry>, entry: nat, change: int): seq<Entry>
    requires entry < |arena|
  {
    arena[entry := arena[entry].(held := arena[entry].held + change)]
  }

  function Swept(table: map<Key, nat>, arena: seq<Entry>, key: Key, now: int): map<Key, nat>
    requires key in table ==> table[key] < |arena|
  {
    if key in table && !SweepKeeps(arena[table[key]], now - IDLE_SECONDS) then table - {key} else table
  }

  /** A sweep unlinks a key's entry exactly when no slot of it is held and it
      was last seen more than ten minutes before the sweep's time. */
  lemma SweptExactly(table: map<Key, nat>, arena: seq<Entry>, key: Key, now: int)
    requires key in table && table[key] < |arena|
    ensures key !in Swept(table, arena, key, now) <==> arena[table[key]].held <= 0 && now - arena[table[key]].lastSeen > 600
    ensures forall k :: k != key ==> (k in Swept(table, arena, key, now) <==> k in table)
  {}

  /** An acquire's entry is stamped now and nothing else of it changes, but for
      a key without one: that gets one with `n` slots, none held. */
  lemma FoundExactly(table: map<Key, nat>, arena: seq<Entry>, key: Key, n: nat, now: int)
    requires key in table ==> table[key] < |arena|
    ensures var (t, a, e) := Lookup(table, arena, key, n, now);
            && e < |a| && key in t && t[key] == e
            && (key in table ==> t == table && e == table[key] && a == arena[e := Entry(arena[e].key, arena[e].capacity, arena[e].held, now)])
            && (key !in table ==> t == table[key := e] && a == arena + [Entry(key, n, 0, now)])
  {}

  class StepSlots {
    var table: map<Key, nat>
    var arena: seq<Entry>

    ghost predicate Valid()
      reads this
    {
      forall k :: k in table ==> table[k] < |arena|
    }

    constructor ()
      ensures Valid() && table == map[] && arena == []
    {
      table, arena := map[], [];
    }

    /** The part of `acquire` under the table's lock: the key's entry, made
        with n slots only when absent, stamped now. */
    method Find(key: Key, n: nat, now: int) returns (entry: nat)
      requires Valid()
      modifies this
      ensures Valid()
      ensures (table, arena, entry) == Lookup(old(table), old(arena), key, n, now)
    {
      if key !in table {
        table := table[key := |arena|];
        arena := arena + [Entry(key, n, 0, now)];
        return |arena| - 1;
      }
      entry := table[key];
      arena := arena[entry := arena[entry].(lastSeen := now)];
    }

    /** One turn of `acquire`'s wait loop, under the entry's lock. */
    method Take(entry: nat) returns (taken: bool)
      requires entry < |arena|
      modifies this`arena
      ensures taken == (old(arena)[entry].held < old(arena)[entry].capacity)
      ensures arena == if taken then Changed(old(arena), entry, 1) else old(arena)
    {
      taken := arena[entry].held < arena[entry].capacity;
      if taken { arena := arena[entry := arena[entry].(held := arena[entry].held + 1)]; }
    }

    /** `StepGuard::drop`. */
    method Give(entry: nat)
      requires entry < |arena|
      modifies this`arena
      ensures arena == Changed(old(arena), entry, -1)
    {
      arena := arena[entry := arena[entry].(held := arena[entry].held - 1)];
    }

    method SweepIdle(now: int)
      requires Valid()
      modifies this`table
      ensures Valid()
      ensures forall k :: k in table <==> k in Swept(old(table), arena, k, now)
      ensures forall k :: k in table ==> k in old(table) && table[k] == old(table)[k]
    {
      var cutoff := now - IDLE_SECONDS;
      table := map k | k in table && SweepKeeps(arena[table[k]], cutoff) :: table[k];
    }
  }

  // ---------------------------------------------------- every interleaving

  datatype Phase = Waiting | Holding | Gone

  /** One `acquire` call and the guard it may return. */
  datatype Ticket = Ticket(key: Key, entry: nat, stamp: int, phase: Phase)

  datatype Sys = Sys(table: map<Key, nat>, arena: seq<Entry>, tickets: seq<Ticket>, clock: int)

  /** The sweep reads one entry at a time, so takes and drops may fall between
      two of its reads: each key is a step of its own. It reads the clock before
      it takes the lock, so its time may lag a stamp. */
  datatype Step =
    | Find(key: Key, n: nat, now: int)
    | Take(ticket: nat)
    | Refuse(ticket: nat)
    | Give(ticket: nat)
    | SweepKey(key: Key, now: int)

  predicate WellFormed(y: Sys) {
    && (forall k :: k in y.table ==> y.table[k] < |y.arena|)
    && (forall t :: 0 <= t < |y.tickets| ==> y.tickets[t].entry < |y.arena|)
  }

  predicate Enabled(y: Sys, step: Step) {
    WellFormed(y) &&
    match step
    case Find(_, _, now) => now >= y.clock
    case Take(t) => t < |y.tickets| && y.tickets[t].phase == Waiting
                    && y.arena[y.tickets[t].entry].held < y.arena[y.tickets[t].entry].capacity
    case Refuse(t) => t < |y.tickets| && y.tickets[t].phase == Waiting
                      && y.arena[y.tickets[t].entry].held >= y.arena[y.tickets[t].entry].capacity
    case Give(t) => t < |y.tickets| && y.tickets[t].phase == Holding
    case SweepKey(_, _) => true
  }

  function Move(y: Sys, t: nat, phase: Phase, change: int): Sys
    requires WellFormed(y) && t < |y.tickets|
  {
    var e := y.tickets[t].entry;
    y.(arena := Changed(y.arena, e, change),
       tickets := y.tickets[t := y.tickets[t].(phase := phase)])
  }

  function Apply(y: Sys, step: Step): Sys
    requires Enabled(y, step)
  {
    match step
    case Find(key, n, now) =>
      var (table, arena, e) := Lookup(y.table, y.arena, key, n, now);
      Sys(table, arena, y.tickets + [Ticket(key, e, now, Waiting)], now)
    case Take(t) => Move(y, t, Holding, 1)
    case Refuse(t) => Move(y, t, Gone, 0)
    case Give(t) => Move(y, t, Gone, -1)
    case SweepKey(key, now) => y.(table := Swept(y.table, y.arena, key, now), clock := if now > y.clock then now else y.clock)
  }

  function GuardsAt(tickets: seq<Ticket>, entry: nat): nat {
    if tickets == [] then 0
    else GuardsAt(tickets[..|tickets| - 1], entry)
         + (var t := tickets[|tickets| - 1]; if t.phase == Holding && t.entry == entry then 1 else 0)
  }

  function GuardsOf(tickets: seq<Ticket>, key: Key): nat {
    if tickets == [] then 0
    else GuardsOf(tickets[..|tickets| - 1], key)
         + (var t := tickets[|tickets| - 1]; if t.phase == Holding && t.key == key then 1 else 0)
  }

  ghost predicate Counted(y: Sys) {
    forall e :: 0 <= e < |y.arena| ==> y.arena[e].held == GuardsAt(y.tickets, e) <= y.arena[e].capacity
  }

  /** Holds in every reachable state, however late an acquire settles. */
  ghost predicate Inv(y: Sys) {
    && WellFormed(y)
    && Counted(y)
    && (forall k :: k in y.table ==> y.arena[y.table[k]].key == k)
    && (forall t :: 0 <= t < |y.tickets| ==> y.arena[y.tickets[t].entry].key == y.tickets[t].key)
    && (forall t :: 0 <= t < |y.tickets| && y.tickets[t].phase == Waiting ==>
          y.tickets[t].stamp <= y.arena[y.tickets[t].entry].lastSeen)
    && (forall e :: 0 <= e < |y.arena| ==> y.arena[e].lastSeen <= y.clock)
  }

  /** The ticket's entry is the one the table has for its key. */
  predicate Current(y: Sys, t: nat)
    requires t < |y.tickets|
  {
    y.tickets[t].key in y.table && y.table[y.tickets[t].key] == y.tickets[t].entry
  }

  lemma {:induction false} GuardsUpdate(tickets: seq<Ticket>, t: nat, phase: Phase, e: nat)
    requires t < |tickets|
    ensures GuardsAt(tickets[t := tickets[t].(phase := phase)], e)
            == GuardsAt(tickets, e)
               - (if tickets[t].phase == Holding && tickets[t].entry == e then 1 else 0)
               + (if phase == Holding && tickets[t].entry == e then 1 else 0)
  {
    var n := |tickets| - 1;
    var u := tickets[t := tickets[t].(phase := phase)];
    if t < n {
      GuardsUpdate(tickets[..n], t, phase, e);
      assert u[..n] == tickets[..n][t := tickets[t].(phase := phase)];
    } else {
      assert u[..n] == tickets[..n];
    }
  }

  lemma {:induction false} NoGuardsBeyond(tickets: seq<Ticket>, e: nat)
    requires forall t :: 0 <= t < |tickets| ==> tickets[t].entry < e
    ensures GuardsAt(tickets, e) == 0
  {
    if tickets != [] { NoGuardsBeyond(tickets[..|tickets| - 1], e); }
  }

  lemma MoveKeepsInv(y: Sys, t: nat, phase: Phase, change: int)
    requires Inv(y) && t < |y.tickets| && phase != Waiting
    requires change == (if phase == Holding then 1 else 0) - (if y.tickets[t].phase == Holding then 1 else 0)
    requires y.arena[y.tickets[t].entry].held + change <= y.arena[y.tickets[t].entry].capacity
    ensures Inv(Move(y, t, phase, change))
  {
    hide GuardsAt;
    var z := Move(y, t, phase, change);
    forall e | 0 <= e < |z.arena| ensures z.arena[e].held == GuardsAt(z.tickets, e) <= z.arena[e].capacity {
      GuardsUpdate(y.tickets, t, phase, e);
      assert y.arena[e].held == GuardsAt(y.tickets, e) <= y.arena[e].capacity;
    }
  }

  lemma {:induction false} GuardsAppendWaiting(tickets: seq<Ticket>, t: Ticket, e: nat)
    requires t.phase == Waiting
    ensures GuardsAt(tickets + [t], e) == GuardsAt(tickets, e)
  {
    assert (tickets + [t])[..|tickets|] == tickets;
  }

  lemma FindKeepsInv(y: Sys, key: Key, n: nat, now: int)
    requires Inv(y) && now >= y.clock
    ensures Inv(Apply(y, Find(key, n, now)))
  {
    hide GuardsAt;
    var z := Apply(y, Find(key, n, now));
    NoGuardsBeyond(y.tickets, |y.arena|);
    forall e | 0 <= e < |z.arena| ensures z.arena[e].held == GuardsAt(z.tickets, e) <= z.arena[e].capacity {
      GuardsAppendWaiting(y.tickets, z.tickets[|y.tickets|], e);
      if e < |y.arena| {
        assert y.arena[e].held == GuardsAt(y.tickets, e) <= y.arena[e].capacity;
      }
    }
  }

  /** In every interleaving each entry's count is its live guards, within the
      capacity it was made with. */
  lemma StepKeepsInv(y: Sys, step: Step)
    requires Inv(y) && Enabled(y, step)
    ensures Inv(Apply(y, step))
    ensures forall e :: 0 <= e < |y.arena| ==>
              e < |Apply(y, step).arena| && Apply(y, step).arena[e].capacity == y.arena[e].capacity
  {
    hide GuardsAt;
    match step
    case Find(key, n, now) => FindKeepsInv(y, key, n, now);
    case Take(t) => MoveKeepsInv(y, t, Holding, 1);
    case Refuse(t) => MoveKeepsInv(y, t, Gone, 0);
    case Give(t) => MoveKeepsInv(y, t, Gone, -1);
    case SweepKey(_, _) => assert Counted(Apply(y, step)) by { assert Counted(y); }
  }

  /** A waiting acquire takes a slot exactly when the live guards on its entry
      leave one, and is refused only when they do not. */
  lemma TurnsExactly(y: Sys, t: nat)
    requires Inv(y) && t < |y.tickets| && y.tickets[t].phase == Waiting
    ensures var e := y.tickets[t].entry;
            && (Enabled(y, Take(t)) <==> GuardsAt(y.tickets, e) < y.arena[e].capacity)
            && (Enabled(y, Refuse(t)) <==> GuardsAt(y.tickets, e) == y.arena[e].capacity)
  {
    hide GuardsAt;
    assert Counted(y);
  }

  predicate Runs(y: Sys, steps: seq<Step>)
    decreases |steps|
  {
    steps == [] || (Enabled(y, steps[0]) && Runs(Apply(y, steps[0]), steps[1..]))
  }

  function After(y: Sys, steps: seq<Step>): Sys
    requires Runs(y, steps)
    decreases |steps|
  {
    if steps == [] then y else After(Apply(y, steps[0]), steps[1..])
  }

  const INIT := Sys(map[], [], [], 0)

  /** A sweep never unlinks an entry a live guard is on. */
  lemma SweepSparesHeld(y: Sys, key: Key, now: int, t: nat)
    requires Inv(y) && Enabled(y, SweepKey(key, now))
    requires t < |y.tickets| && y.tickets[t].phase == Holding && Current(y, t)
    ensures Current(Apply(y, SweepKey(key, now)), t)
  {
    GuardCounted(y.tickets, t);
  }

  lemma {:induction false} GuardCounted(tickets: seq<Ticket>, t: nat)
    requires t < |tickets| && tickets[t].phase == Holding
    ensures GuardsAt(tickets, tickets[t].entry) > 0
  {
    if t < |tickets| - 1 { GuardCounted(tickets[..|tickets| - 1], t); }
  }

  /** The step unlinks the key's entry. */
  predicate Unlinks(y: Sys, step: Step) {
    && step.SweepKey? && step.key in y.table && y.table[step.key] < |y.arena|
    && !SweepKeeps(y.arena[y.table[step.key]], step.now - IDLE_SECONDS)
  }

  predicate WaitsOn(y: Sys, t: nat, entry: nat) {
    t < |y.tickets| && y.tickets[t].phase == Waiting && y.tickets[t].entry == entry
  }

  /** A sweep unlinks no entry, with slots to give, that an acquire waits on. */
  ghost predicate Clean(y: Sys, step: Step) {
    Unlinks(y, step) && y.arena[y.table[step.key]].capacity > 0 ==> forall t: nat :: !WaitsOn(y, t, y.table[step.key])
  }

  ghost predicate CleanRun(y: Sys, steps: seq<Step>)
    requires Runs(y, steps)
    decreases |steps|
  {
    steps == [] || (Clean(y, steps[0]) && CleanRun(Apply(y, steps[0]), steps[1..]))
  }

  predicate CanHold(y: Sys, t: nat)
    requires t < |y.tickets|
  {
    y.tickets[t].phase != Gone && y.tickets[t].entry < |y.arena| && y.arena[y.tickets[t].entry].capacity > 0
  }

  /** Every acquire that can still take a slot, or has, is on the entry the
      table has for its key. */
  ghost predicate AllCurrent(y: Sys) {
    forall t :: 0 <= t < |y.tickets| && CanHold(y, t) ==> Current(y, t)
  }

  lemma CleanStepKeepsCurrent(y: Sys, step: Step)
    requires Inv(y) && AllCurrent(y) && Enabled(y, step) && Clean(y, step)
    ensures AllCurrent(Apply(y, step))
  {
    hide GuardsAt, Inv;
    StepKeepsEntries(y, step);
    var z := Apply(y, step);
    forall t | 0 <= t < |z.tickets| && CanHold(z, t) ensures Current(z, t) {
      if t < |y.tickets| {
        assert CanHold(y, t) && Current(y, t);
        if step.SweepKey? && y.tickets[t].phase == Holding { SweepSparesHeld(y, step.key, step.now, t); }
        if step.SweepKey? && y.tickets[t].phase == Waiting { assert WaitsOn(y, t, y.tickets[t].entry); }
      }
    }
  }

  lemma StepKeepsEntries(y: Sys, step: Step)
    requires Inv(y) && Enabled(y, step)
    ensures WellFormed(y) && |y.arena| <= |Apply(y, step).arena|
    ensures forall e :: 0 <= e < |y.arena| ==> Apply(y, step).arena[e].capacity == y.arena[e].capacity
  {
    hide GuardsAt;
  }

  lemma {:induction false} SameGuards(tickets: seq<Ticket>, key: Key, e: nat)
    requires forall t :: 0 <= t < |tickets| && tickets[t].phase == Holding ==>
               (tickets[t].key == key <==> tickets[t].entry == e)
    ensures GuardsOf(tickets, key) == GuardsAt(tickets, e)
  {
    if tickets != [] { SameGuards(tickets[..|tickets| - 1], key, e); }
  }

  lemma {:induction false} NoGuardsOf(tickets: seq<Ticket>, key: Key)
    requires forall t :: 0 <= t < |tickets| && tickets[t].phase == Holding ==> tickets[t].key != key
    ensures GuardsOf(tickets, key) == 0
  {
    if tickets != [] { NoGuardsOf(tickets[..|tickets| - 1], key); }
  }

  lemma HoldersAreCurrent(y: Sys, t: nat)
    requires Inv(y) && AllCurrent(y) && t < |y.tickets| && y.tickets[t].phase == Holding
    ensures Current(y, t)
  {
    GuardCounted(y.tickets, t);
    assert Counted(y);
  }

  lemma KeyWithinBound(y: Sys, key: Key)
    requires Inv(y) && AllCurrent(y)
    ensures key in y.table ==> GuardsOf(y.tickets, key) <= y.arena[y.table[key]].capacity
    ensures key !in y.table ==> GuardsOf(y.tickets, key) == 0
  {
    hide GuardsAt, GuardsOf;
    forall t | 0 <= t < |y.tickets| && y.tickets[t].phase == Holding ensures Current(y, t) { HoldersAreCurrent(y, t); }
    if key in y.table {
      SameGuards(y.tickets, key, y.table[key]);
      assert Counted(y);
    } else {
      NoGuardsOf(y.tickets, key);
    }
  }

  lemma {:induction false} CleanRunKeeps(y: Sys, steps: seq<Step>)
    requires Inv(y) && AllCurrent(y) && Runs(y, steps) && CleanRun(y, steps)
    ensures Inv(After(y, steps)) && AllCurrent(After(y, steps))
    decreases |steps|
  {
    hide Inv, AllCurrent, Enabled, Apply, Clean;
    if steps != [] {
      StepKeepsInv(y, steps[0]);
      CleanStepKeepsCurrent(y, steps[0]);
      CleanRunKeeps(Apply(y, steps[0]), steps[1..]);
    }
  }

  /** A key's live guards never exceed the capacity of its one entry, and there
      are none while it has no entry. */
  ghost predicate WithinBound(z: Sys, key: Key) {
    GuardsOf(z.tickets, key) <= if key in z.table && z.table[key] < |z.arena| then z.arena[z.table[key]].capacity else 0
  }

  /** The per-step bound, over every run whose sweeps are clean. */
  lemma StepBoundHolds(steps: seq<Step>, key: Key)
    requires Runs(INIT, steps) && CleanRun(INIT, steps)
    ensures WithinBound(After(INIT, steps), key)
  {
    hide GuardsOf, GuardsAt, Runs, After, CleanRun;
    CleanRunKeeps(INIT, steps);
    KeyWithinBound(After(INIT, steps), key);
  }

  /** And only over those: after any other sweep, in any reachable state, the
      run can go on to two guards under a bound of one. */
  lemma UncleanBreaksTheBound(y: Sys, step: Step) returns (more: seq<Step>)
    requires Inv(y) && Enabled(y, step) && !Clean(y, step)
    ensures Runs(Apply(y, step), more) && !WithinBound(After(Apply(y, step), more), step.key)
  {
    hide GuardsOf, GuardsAt, Runs, After;
    var e := y.table[step.key];
    var t: nat :| WaitsOn(y, t, e);
    var z := Apply(y, step);
    StepKeepsInv(y, step);
    assert z.tickets == y.tickets && z.arena == y.arena && y.tickets[t].key == step.key;
    more := [Find(step.key, 1, z.clock), Take(|z.tickets|), Take(t)];
    OrphanBreaksTheBound(z, t);
  }

  /** Every acquire that has not settled when a sweep runs was stamped within
      the ten minutes the sweep looks back. */
  ghost predicate Prompt(y: Sys, step: Step) {
    step.SweepKey? ==>
      forall t :: 0 <= t < |y.tickets| && y.tickets[t].phase == Waiting ==>
        step.now - y.tickets[t].stamp <= 600
  }

  ghost predicate PromptRun(y: Sys, steps: seq<Step>)
    requires Runs(y, steps)
    decreases |steps|
  {
    steps == [] || (Prompt(y, steps[0]) && PromptRun(Apply(y, steps[0]), steps[1..]))
  }

  /** So acquires that settle within ten minutes are enough. */
  lemma {:induction false} PromptIsClean(y: Sys, steps: seq<Step>)
    requires Inv(y) && Runs(y, steps) && PromptRun(y, steps)
    ensures CleanRun(y, steps)
    decreases |steps|
  {
    hide Enabled, Apply, GuardsAt;
    if steps != [] {
      assert Clean(y, steps[0]) by { assert WellFormed(y); }
      StepKeepsInv(y, steps[0]);
      PromptIsClean(Apply(y, steps[0]), steps[1..]);
    }
  }

  /** Once a sweep has unlinked an entry an acquire still waits on, a new
      acquire makes another, and both take a slot. */
  lemma OrphanBreaksTheBound(y: Sys, t: nat)
    requires WellFormed(y) && t < |y.tickets| && y.tickets[t].phase == Waiting && y.tickets[t].key !in y.table
    requires y.arena[y.tickets[t].entry].held < y.arena[y.tickets[t].entry].capacity
    ensures var key := y.tickets[t].key;
            var steps := [Find(key, 1, y.clock), Take(|y.tickets|), Take(t)];
            Runs(y, steps) && !WithinBound(After(y, steps), key)
  {
    var key, n, e := y.tickets[t].key, |y.tickets|, y.tickets[t].entry;
    var p, q, r := Find(key, 1, y.clock), Take(n), Take(t);
    var a := Sys(y.table[key := |y.arena|], y.arena + [Entry(key, 1, 0, y.clock)],
                 y.tickets + [Ticket(key, |y.arena|, y.clock, Waiting)], y.clock);
    FindMakesEntry(y, key, a);
    hide Enabled, Apply, GuardsOf;
    TakeMoves(a, n);
    var b := Move(a, n, Holding, 1);
    assert b.tickets[t] == y.tickets[t] && b.arena[e] == y.arena[e];
    TakeMoves(b, t);
    var c := Move(b, t, Holding, 1);
    ThreeSteps(y, p, q, r);
    assert c.tickets[n].phase == Holding && c.tickets[n].key == key;
    assert c.tickets[..n][t].phase == Holding && c.tickets[..n][t].key == key;
    GuardOfCounted(c.tickets[..n], t);
    LastGuardCounts(c.tickets);
    assert c.table[key] == |y.arena| && c.arena[|y.arena|].capacity == 1;
  }

  lemma LastGuardCounts(tickets: seq<Ticket>)
    requires tickets != [] && tickets[|tickets| - 1].phase == Holding
    ensures var n := |tickets| - 1;
            GuardsOf(tickets, tickets[n].key) == GuardsOf(tickets[..n], tickets[n].key) + 1
  {}

  lemma FindMakesEntry(y: Sys, key: Key, a: Sys)
    requires WellFormed(y) && key !in y.table
    requires a == Sys(y.table[key := |y.arena|], y.arena + [Entry(key, 1, 0, y.clock)],
                      y.tickets + [Ticket(key, |y.arena|, y.clock, Waiting)], y.clock)
    ensures Enabled(y, Find(key, 1, y.clock)) && Apply(y, Find(key, 1, y.clock)) == a && WellFormed(a)
  {}

  lemma TakeMoves(y: Sys, t: nat)
    requires WellFormed(y) && t < |y.tickets| && y.tickets[t].phase == Waiting
    requires y.arena[y.tickets[t].entry].held < y.arena[y.tickets[t].entry].capacity
    ensures Enabled(y, Take(t)) && Apply(y, Take(t)) == Move(y, t, Holding, 1) && WellFormed(Move(y, t, Holding, 1))
  {}

  lemma ThreeSteps(y: Sys, p: Step, q: Step, r: Step)
    requires Enabled(y, p) && Enabled(Apply(y, p), q) && Enabled(Apply(Apply(y, p), q), r)
    ensures Runs(y, [p, q, r]) && After(y, [p, q, r]) == Apply(Apply(Apply(y, p), q), r)
  {
    hide Enabled, Apply;
    var a, b := Apply(y, p), Apply(Apply(y, p), q);
    var c := Apply(b, r);
    assert [p, q, r][1..] == [q, r] && [q, r][1..] == [r] && [r][1..] == [];
    assert Runs(c, []) && Runs(b, [r]) && Runs(a, [q, r]);
    assert After(c, []) == c && After(b, [r]) == c && After(a, [q, r]) == c;
  }

  lemma {:induction false} GuardOfCounted(tickets: seq<Ticket>, t: nat)
    requires t < |tickets| && tickets[t].phase == Holding
    ensures GuardsOf(tickets, tickets[t].key) > 0
  {
    if t < |tickets| - 1 { GuardOfCounted(tickets[..|tickets| - 1], t); }
  }

  function LateAcquire(key: Key): Sys {
    Sys(map[key := 0], [Entry(key, 1, 0, 0)], [Ticket(key, 0, 0, Waiting)], 0)
  }

  function Orphaned(key: Key): Sys {
    LateAcquire(key).(table := map[], clock := 601)
  }

  lemma LateAcquireSwept(key: Key)
    ensures Enabled(INIT, Find(key, 1, 0)) && Apply(INIT, Find(key, 1, 0)) == LateAcquire(key)
    ensures Enabled(LateAcquire(key), SweepKey(key, 601))
    ensures Apply(LateAcquire(key), SweepKey(key, 601)) == Orphaned(key)
    ensures !Clean(LateAcquire(key), SweepKey(key, 601))
  {
    assert WaitsOn(LateAcquire(key), 0, 0);
    assert LateAcquire(key).table - {key} == map[];
  }

  /** A reachable failure: an acquire stamped at 0 that has not taken its slot
      when the sweep runs at second 601 is orphaned, and the run goes on to two
      guards under a bound of one. */
  lemma LateAcquireOverruns(key: Key)
    ensures var steps := [Find(key, 1, 0), SweepKey(key, 601)] + [Find(key, 1, 601), Take(1), Take(0)];
            Runs(INIT, steps) && !WithinBound(After(INIT, steps), key)
  {
    hide Enabled, Apply, Runs, After, Clean, WithinBound;
    LateAcquireSwept(key);
    TwoSteps(INIT, Find(key, 1, 0), SweepKey(key, 601));
    OrphanBreaksTheBound(Orphaned(key), 0);
    RunsAppend(INIT, [Find(key, 1, 0), SweepKey(key, 601)], [Find(key, 1, 601), Take(1), Take(0)]);
  }

  lemma {:induction false} RunsAppend(y: Sys, a: seq<Step>, b: seq<Step>)
    requires Runs(y, a) && Runs(After(y, a), b)
    ensures Runs(y, a + b) && After(y, a + b) == After(After(y, a), b)
    decreases |a|
  {
    hide Enabled, Apply;
    if a == [] {
      assert a + b == b;
    } else {
      assert (a + b)[1..] == a[1..] + b;
      RunsAppend(Apply(y, a[0]), a[1..], b);
    }
  }

  lemma TwoSteps(y: Sys, p: Step, q: Step)
    requires Enabled(y, p) && Enabled(Apply(y, p), q)
    ensures Runs(y, [p, q]) && After(y, [p, q]) == Apply(Apply(y, p), q)
  {
    hide Enabled, Apply;
    var a := Apply(y, p);
    var b := Apply(a, q);
    assert [p, q][1..] == [q] && [q][1..] == [];
    assert Runs(b, []) && Runs(a, [q]);
    assert After(b, []) == b && After(a, [q]) == b;
  }
}
