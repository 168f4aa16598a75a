/** The shared run-memory pool and the per-run limiter: `MemPool` of
    crates/engine-api/src/concurrency.rs, `PoolHold`, `RunLimiter` and the
    start-up check of crates/engine/src/lib.rs.

    A charge is not atomic: it raises `charged`, may wait for the pool while
    other runs go on, and is undone when the pool cannot serve it in time. The
    classes have one method per critical section; `Sys` interleaves them over
    any number of runs. */
module Pool {
  import opened Base

  datatype StartUpError = PoolSmallerThanCeiling

  /** `Wasmtime::new`: no pool when the flag is 0, an error when the pool could
      never admit a full-limit run. */
  function PoolSize(flag: nat, memoryLimit: nat): Result<Option<nat>, StartUpError> {
    if 0 < flag < memoryLimit then Err(PoolSmallerThanCeiling)
    else Ok(if flag > 0 then Some(flag) else None)
  }

  /** `effective`: a run may lower its ceiling, never raise it. */
  function EffectiveLimit(memoryLimit: nat, asked: Option<nat>): nat {
    if asked.Some? && asked.value < memoryLimit then asked.value else memoryLimit
  }

  class MemPool {
    const total: nat
    var used: int

    constructor (total: nat)
      ensures this.total == total && used == 0
    {
      this.total, used := total, 0;
    }

    /** One turn of `reserve`'s loop. Only a turn that does not fit can end in
        a refusal, and then only past the deadline. */
    method Reserve(n: nat) returns (fits: bool)
      modifies this
      ensures fits == (old(used) + n <= total)
      ensures used == old(used) + (if fits then n else 0)
    {
      fits := used + n <= total;
      if fits { used := used + n; }
    }

    method Release(n: nat)
      modifies this
      ensures used == old(used) - n
    {
      used := used - n;
    }
  }

  /** A pooled run: its ceiling, its reservation, what its regions claim, and
      the delta of a charge that is waiting for the pool. */
  datatype Run = Run(limit: nat, hold: nat, charged: nat, waiting: Option<nat>)

  datatype Charged = Denied | Done | Waits(need: nat)

  function BeginCharge(r: Run, delta: nat): (Run, Charged) {
    if r.charged + delta > r.limit then (r, Denied)
    else
      var c := r.charged + delta;
      if c > r.hold then (r.(charged := c, waiting := Some(delta)), Waits(c - r.hold))
      else (r.(charged := c), Done)
  }

  function Need(r: Run): int {
    r.charged - r.hold
  }

  /** A charge is denied exactly when it would take the claim over the ceiling,
      and then changes nothing; one up to the ceiling itself is not. Otherwise
      the claim rises, and the pool is asked for what the reservation lacks. */
  lemma DeniedExactly(r: Run, delta: nat)
    ensures var (after, outcome) := BeginCharge(r, delta);
            && (outcome == Denied <==> r.charged + delta > r.limit)
            && (outcome == Denied ==> after == r)
            && (outcome != Denied ==> after.charged == r.charged + delta && after.hold == r.hold && after.limit == r.limit)
            && (outcome == Done <==> r.charged + delta <= r.limit && r.charged + delta <= r.hold)
            && (outcome.Waits? ==> outcome.need == r.charged + delta - r.hold && after.waiting == Some(delta))
  {}

  /** A run gets the lower of the two ceilings. */
  lemma EffectiveLimitIsTheLower(memoryLimit: nat, asked: Option<nat>)
    ensures asked.None? ==> EffectiveLimit(memoryLimit, asked) == memoryLimit
    ensures asked.Some? ==>
              var e := EffectiveLimit(memoryLimit, asked);
              e <= memoryLimit && e <= asked.value && (e == memoryLimit || e == asked.value)
  {}

  /** Start-up refuses exactly a pool that a run at the full ceiling could never
      fit in, and a flag of zero means no pool. */
  lemma PoolSizeExactly(flag: nat, memoryLimit: nat)
    ensures PoolSize(flag, memoryLimit).Err? <==> flag > 0 && !Fits(flag, 0, memoryLimit)
    ensures PoolSize(flag, memoryLimit).Ok? ==> PoolSize(flag, memoryLimit).value == if flag == 0 then None else Some(flag)
  {}

  /** The run once the pool served what it lacked. */
  function Served(r: Run): Run {
    r.(hold := r.charged, waiting := None)
  }

  /** The run once its refused charge is taken back. */
  function TakenBack(r: Run): Run
    requires r.waiting.Some? && r.charged >= r.waiting.value
  {
    r.(charged := r.charged - r.waiting.value, waiting := None)
  }

  predicate Fits(total: nat, used: int, n: int) {
    used + n <= total
  }

  class RunLimiter {
    const limit: nat
    const pool: MemPool
    var hold: nat
    var charged: nat
    var waiting: Option<nat>

    constructor (limit: nat, pool: MemPool)
      ensures Now() == Run(limit, 0, 0, None) && this.pool == pool
    {
      this.limit, this.pool, hold, charged, waiting := limit, pool, 0, 0, None;
    }

    ghost function Now(): Run
      reads this
    {
      Run(limit, hold, charged, waiting)
    }

    method Charge(delta: nat) returns (outcome: Charged)
      requires waiting.None?
      modifies this
      ensures (Now(), outcome) == BeginCharge(old(Now()), delta)
    {
      if charged + delta > limit { return Denied; }
      charged := charged + delta;
      if charged > hold {
        waiting := Some(delta);
        return Waits(charged - hold);
      }
      return Done;
    }

    /** `PoolHold::grow` with the pool's lock taken. */
    method Grow() returns (served: bool)
      requires waiting.Some? && charged >= hold
      modifies this, pool
      ensures served == Fits(pool.total, old(pool.used), Need(old(Now())))
      ensures pool.used == old(pool.used) + (if served then Need(old(Now())) else 0)
      ensures Now() == if served then Served(old(Now())) else old(Now())
    {
      served := pool.Reserve(charged - hold);
      if served {
        hold := charged;
        waiting := None;
      }
    }

    /** The refused charge is taken back. */
    method GiveUp()
      requires waiting.Some? && charged >= waiting.value
      modifies this
      ensures Now() == TakenBack(old(Now()))
    {
      charged := charged - waiting.value;
      waiting := None;
    }

    /** `PoolHold::drop`. */
    method Close()
      modifies pool
      ensures pool.used == old(pool.used) - Now().hold
    {
      if hold > 0 { pool.Release(hold); }
    }
  }

  // ---------------------------------------------------- every interleaving

  /** Runs are numbered by start; a dropped run leaves None. */
  datatype Sys = Sys(total: nat, memoryLimit: nat, used: int, runs: seq<Option<Run>>)

  datatype Step =
    | Start(asked: Option<nat>)
    | Charge(id: nat, delta: nat)
    | Serve(id: nat)
    | Refuse(id: nat)
    | End(id: nat)

  predicate Live(y: Sys, id: nat) {
    id < |y.runs| && y.runs[id].Some?
  }

  predicate Enabled(y: Sys, step: Step) {
    match step
    case Start(_) => true
    case Charge(id, _) => Live(y, id) && y.runs[id].value.waiting.None?
    case Serve(id) => Live(y, id) && y.runs[id].value.waiting.Some? && Fits(y.total, y.used, Need(y.runs[id].value))
    case Refuse(id) => Live(y, id) && y.runs[id].value.waiting.Some? && !Fits(y.total, y.used, Need(y.runs[id].value))
                       && y.runs[id].value.waiting.value <= y.runs[id].value.charged
    case End(id) => Live(y, id) && y.runs[id].value.waiting.None?
  }

  function Apply(y: Sys, step: Step): Sys
    requires Enabled(y, step)
  {
    match step
    case Start(asked) =>
      y.(runs := y.runs + [Some(Run(EffectiveLimit(y.memoryLimit, asked), 0, 0, None))])
    case Charge(id, delta) =>
      y.(runs := y.runs[id := Some(BeginCharge(y.runs[id].value, delta).0)])
    case Serve(id) =>
      var r := y.runs[id].value;
      y.(used := y.used + Need(r), runs := y.runs[id := Some(Served(r))])
    case Refuse(id) =>
      var r := y.runs[id].value;
      y.(runs := y.runs[id := Some(TakenBack(r))])
    case End(id) =>
      y.(used := y.used - y.runs[id].value.hold, runs := y.runs[id := None])
  }

  function TotalHeld(runs: seq<Option<Run>>): nat {
    if runs == [] then 0
    else TotalHeld(runs[..|runs| - 1]) + (match runs[|runs| - 1] case Some(r) => r.hold case None => 0)
  }

  ghost predicate RunOk(r: Run) {
    && r.charged <= r.limit
    && (r.waiting.None? ==> r.charged == r.hold)
    && (r.waiting.Some? ==> r.charged == r.hold + r.waiting.value && r.waiting.value > 0)
  }

  ghost predicate Inv(y: Sys) {
    && y.memoryLimit <= y.total
    && y.used == TotalHeld(y.runs) <= y.total
    && (forall i :: 0 <= i < |y.runs| && y.runs[i].Some? ==> RunOk(y.runs[i].value) && y.runs[i].value.limit <= y.memoryLimit)
  }

  lemma {:induction false} HeldUpdate(runs: seq<Option<Run>>, id: nat, r: Option<Run>)
    requires id < |runs|
    ensures TotalHeld(runs[id := r]) == TotalHeld(runs) - TotalHeld([runs[id]]) + TotalHeld([r])
  {
    var n := |runs| - 1;
    var u := runs[id := r];
    if id < n {
      HeldUpdate(runs[..n], id, r);
      assert u[..n] == runs[..n][id := r];
    } else {
      assert u[..n] == runs[..n];
      assert [r][..0] == [] && [runs[id]][..0] == [];
    }
    assert TotalHeld(u) == TotalHeld(u[..n]) + (match u[n] case Some(q) => q.hold case None => 0);
  }

  lemma HeldOne(r: Option<Run>)
    ensures TotalHeld([r]) == (match r case Some(q) => q.hold case None => 0)
  {
    assert [r][..0] == [];
  }

  /** Every step keeps the accounts: what is used is the sum of the live holds
      and never over the total; between charges a run's claim is its
      reservation, within its ceiling. */
  lemma StepKeepsInv(y: Sys, step: Step)
    requires Inv(y) && Enabled(y, step)
    ensures Inv(Apply(y, step))
  {
    var z := Apply(y, step);
    if step.Start? {
      assert z.runs[..|y.runs|] == y.runs;
    } else {
      HeldUpdate(y.runs, step.id, z.runs[step.id]);
      HeldOne(y.runs[step.id]);
      HeldOne(z.runs[step.id]);
    }
  }

  /** A waiting growth can always be settled: served exactly when what it
      lacks fits, and otherwise refused at its deadline. */
  lemma WaitIsSettled(y: Sys, id: nat)
    requires Inv(y) && Live(y, id) && y.runs[id].value.waiting.Some?
    ensures var r := y.runs[id].value;
            && (Enabled(y, Serve(id)) <==> y.used + (r.charged - r.hold) <= y.total)
            && (Enabled(y, Refuse(id)) <==> y.used + (r.charged - r.hold) > y.total)
  {
    assert RunOk(y.runs[id].value);
  }

  predicate Runs(y: Sys, steps: seq<Step>)
    decreases |steps|
  {
    steps == [] || (Enabled(y, steps[0]) && Runs(Apply(y, steps[0]), steps[1..]))
  }

  function After(y: Sys, steps: seq<Step>): Sys
    requires Runs(y, steps)
    decreases |steps|
  {
    if steps == [] then y else After(Apply(y, steps[0]), steps[1..])
  }

  function Init(flag: nat, memoryLimit: nat): Sys
    requires PoolSize(flag, memoryLimit).Ok? && flag > 0
  {
    Sys(flag, memoryLimit, 0, [])
  }

  /** From a configuration start-up accepts, over any interleaving of runs. */
  lemma ReachableAccounts(flag: nat, memoryLimit: nat, steps: seq<Step>)
    requires PoolSize(flag, memoryLimit).Ok? && flag > 0 && Runs(Init(flag, memoryLimit), steps)
    ensures var z := After(Init(flag, memoryLimit), steps);
            && z.used == TotalHeld(z.runs) && 0 <= z.used <= flag
            && (forall i :: 0 <= i < |z.runs| && z.runs[i].Some? && z.runs[i].value.waiting.None? ==>
                  z.runs[i].value.charged == z.runs[i].value.hold <= z.runs[i].value.limit <= memoryLimit)
            && ((forall i :: 0 <= i < |z.runs| ==> z.runs[i].None?) ==> z.used == 0)
  {
    RunKeepsInv(Init(flag, memoryLimit), steps);
    var z := After(Init(flag, memoryLimit), steps);
    if forall i :: 0 <= i < |z.runs| ==> z.runs[i].None? { NothingHeld(z.runs); }
  }

  lemma {:induction false} RunKeepsInv(y: Sys, steps: seq<Step>)
    requires Inv(y) && Runs(y, steps)
    ensures Inv(After(y, steps))
    ensures After(y, steps).total == y.total && After(y, steps).memoryLimit == y.memoryLimit
    decreases |steps|
  {
    if steps != [] {
      StepKeepsInv(y, steps[0]);
      RunKeepsInv(Apply(y, steps[0]), steps[1..]);
    }
  }

  lemma {:induction false} NothingHeld(runs: seq<Option<Run>>)
    requires forall i :: 0 <= i < |runs| ==> runs[i].None? || runs[i].value.hold == 0
    ensures TotalHeld(runs) == 0
  {
    if runs != [] { NothingHeld(runs[..|runs| - 1]); }
  }

  /** A run that holds the pool alone is never refused by it: whatever it asks
      for within its ceiling fits, because start-up demanded as much. */
  lemma LoneRunIsServed(y: Sys, id: nat)
    requires Inv(y) && Live(y, id) && y.runs[id].value.waiting.Some?
    requires forall i :: 0 <= i < |y.runs| && i != id && y.runs[i].Some? ==> y.runs[i].value.hold == 0
    ensures Enabled(y, Serve(id)) && !Enabled(y, Refuse(id))
  {
    HeldUpdate(y.runs, id, None);
    HeldOne(y.runs[id]);
    HeldOne(None);
    NothingHeld(y.runs[id := None]);
  }

  /** No other run holds anything. */
  ghost predicate Alone(y: Sys, id: nat) {
    Live(y, id) && forall i :: 0 <= i < |y.runs| && i != id && y.runs[i].Some? ==> y.runs[i].value.hold == 0
  }

  function Sum(deltas: seq<nat>): nat {
    if deltas == [] then 0 else deltas[0] + Sum(deltas[1..])
  }

  /** A growth of a lone run within its ceiling: it is not denied, and if it has
      to wait for the pool it is served and cannot be refused. */
  lemma LoneGrowth(y: Sys, id: nat, delta: nat) returns (steps: seq<Step>)
    requires Inv(y) && Alone(y, id) && y.runs[id].value.waiting.None? && y.runs[id].value.charged + delta <= y.runs[id].value.limit
    ensures Enabled(y, Charge(id, delta)) && !Enabled(Apply(y, Charge(id, delta)), Refuse(id))
    ensures steps == if delta == 0 then [Charge(id, 0)] else [Charge(id, delta), Serve(id)]
    ensures Runs(y, steps)
    ensures var z := After(y, steps);
            && Inv(z) && Alone(z, id) && |z.runs| == |y.runs|
            && z.runs[id] == Some(y.runs[id].value.(hold := y.runs[id].value.hold + delta, charged := y.runs[id].value.charged + delta))
  {
    var c := Charge(id, delta);
    var m := Apply(y, c);
    DeniedExactly(y.runs[id].value, delta);
    StepKeepsInv(y, c);
    assert RunOk(y.runs[id].value) && RunOk(m.runs[id].value);
    if delta == 0 {
      steps := [c];
      OneStep(y, c);
    } else {
      LoneRunIsServed(m, id);
      StepKeepsInv(m, Serve(id));
      steps := [c, Serve(id)];
      TwoSteps(y, c, Serve(id));
    }
  }

  lemma OneStep(y: Sys, p: Step)
    requires Enabled(y, p)
    ensures Runs(y, [p]) && After(y, [p]) == Apply(y, p)
  {
    hide Enabled, Apply;
    assert [p][1..] == [] && Runs(Apply(y, p), []);
  }

  lemma TwoSteps(y: Sys, p: Step, q: Step)
    requires Enabled(y, p) && Enabled(Apply(y, p), q)
    ensures Runs(y, [p, q]) && After(y, [p, q]) == Apply(Apply(y, p), q)
  {
    hide Enabled, Apply;
    assert [p, q][1..] == [q];
    OneStep(Apply(y, p), q);
  }

  lemma {:induction false} RunsAppend(y: Sys, a: seq<Step>, b: seq<Step>)
    requires Runs(y, a) && Runs(After(y, a), b)
    ensures Runs(y, a + b) && After(y, a + b) == After(After(y, a), b)
    decreases |a|
  {
    hide Enabled, Apply;
    if a == [] {
      assert a + b == b;
    } else {
      assert (a + b)[1..] == a[1..] + b;
      RunsAppend(Apply(y, a[0]), a[1..], b);
    }
  }

  /** A run alone in the pool obtains every growth whose sum stays within its
      ceiling, whatever the pieces. */
  lemma {:induction false} LoneRunObtainsAll(y: Sys, id: nat, deltas: seq<nat>) returns (steps: seq<Step>)
    requires Inv(y) && Alone(y, id) && y.runs[id].value.waiting.None?
    requires y.runs[id].value.charged + Sum(deltas) <= y.runs[id].value.limit
    ensures Runs(y, steps)
    ensures var z := After(y, steps);
            && Inv(z) && Alone(z, id) && z.runs[id].value.waiting.None?
            && z.runs[id].value.hold == y.runs[id].value.hold + Sum(deltas)
    decreases |deltas|
  {
    hide Inv, Enabled, Apply;
    if deltas == [] {
      steps := [];
    } else {
      var first := LoneGrowth(y, id, deltas[0]);
      var z := After(y, first);
      var rest := LoneRunObtainsAll(z, id, deltas[1..]);
      RunsAppend(y, first, rest);
      steps := first + rest;
    }
  }

  /** So from any configuration that start-up accepts, a first run obtains all
      that the engine's ceiling and its own allow. */
  lemma FirstRunObtainsAll(flag: nat, memoryLimit: nat, asked: Option<nat>, deltas: seq<nat>) returns (steps: seq<Step>)
    requires PoolSize(flag, memoryLimit).Ok? && flag > 0
    requires Sum(deltas) <= memoryLimit && (asked.Some? ==> Sum(deltas) <= asked.value)
    ensures Runs(Init(flag, memoryLimit), steps)
    ensures var z := After(Init(flag, memoryLimit), steps); Live(z, 0) && z.runs[0].value.hold == Sum(deltas)
  {
    var y := Init(flag, memoryLimit);
    var z := Apply(y, Start(asked));
    OneStep(y, Start(asked));
    StepKeepsInv(y, Start(asked));
    hide Inv, Enabled, Apply, Runs, After, Sum;
    var rest := LoneRunObtainsAll(z, 0, deltas);
    RunsAppend(y, [Start(asked)], rest);
    steps := [Start(asked)] + rest;
  }

  /** The bytes the pool served to run id along a run of the system. */
  function ServedTo(y: Sys, steps: seq<Step>, id: nat): int
    requires Runs(y, steps)
    decreases |steps|
  {
    if steps == [] then 0
    else
      (if steps[0] == Serve(id) then y.runs[id].value.waiting.value else 0)
      + ServedTo(Apply(y, steps[0]), steps[1..], id)
  }

  /** A run's footprint is exactly the growth its guest was granted: refused
      charges, by the ceiling or by the pool, leave nothing behind. */
  lemma {:induction false} FootprintIsGrantedGrowth(y: Sys, steps: seq<Step>, id: nat)
    requires Inv(y) && Runs(y, steps) && Live(y, id) && Live(After(y, steps), id)
    ensures After(y, steps).runs[id].value.hold == y.runs[id].value.hold + ServedTo(y, steps, id)
    decreases |steps|
  {
    if steps != [] {
      StepKeepsInv(y, steps[0]);
      var z := Apply(y, steps[0]);
      if z.runs[id].None? { StaysEnded(z, steps[1..], id); }
      FootprintIsGrantedGrowth(z, steps[1..], id);
    }
  }

  lemma {:induction false} StaysEnded(y: Sys, steps: seq<Step>, id: nat)
    requires Runs(y, steps) && id < |y.runs| && y.runs[id].None?
    ensures !Live(After(y, steps), id)
    decreases |steps|
  {
    if steps != [] { StaysEnded(Apply(y, steps[0]), steps[1..], id); }
  }
}
