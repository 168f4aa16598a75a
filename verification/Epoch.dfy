/** The epoch-deadline callback of crates/engine/src/component.rs: a run's
    deadline meters guest compute, so time blocked in wasi:http is credited
    back in whole ticks when the deadline fires. Times are nanoseconds. */
module Epoch {
  import opened Base

  const EPOCH_TICK: nat := 10_000_000

  datatype Verdict = Interrupt | Continue(extend: nat)

  /** `deadline_ticks`: the budget in ticks, rounded up, at least one. */
  function DeadlineTicks(timeout: nat): nat {
    var ticks := (timeout + EPOCH_TICK - 1) / EPOCH_TICK;
    if ticks < 1 then 1 else ticks
  }

  /** The budget in ticks of ten milliseconds: the fewest that cover it. */
  lemma DeadlineTicksExactly(timeout: nat)
    ensures DeadlineTicks(timeout) * 10_000_000 >= timeout
    ensures timeout > 0 ==> (DeadlineTicks(timeout) - 1) * 10_000_000 < timeout
    ensures timeout == 0 ==> DeadlineTicks(timeout) == 1
  {}

  function Fire(hard: Option<nat>, credited: nat, now: nat, http: nat): (Verdict, nat) {
    if hard.Some? && now >= hard.value then (Interrupt, credited)
    else
      var credit := if http > credited then http - credited else 0;
      var extend := credit / EPOCH_TICK;
      if extend == 0 then (Interrupt, credited)
      else
        var capped :=
          if hard.Some? then
            var left := (hard.value - now) / EPOCH_TICK;
            var cap := if left > 1 then left else 1;
            if extend < cap then extend else cap
          else extend;
        (Continue(capped), credited + EPOCH_TICK * capped)
  }

  /** The closure with the state it captures. */
  class DeadlineCallback {
    const hard: Option<nat>
    var credited: nat

    constructor (hard: Option<nat>)
      ensures this.hard == hard && credited == 0
    {
      this.hard, credited := hard, 0;
    }

    /** `http` is the shared counter as this firing reads it. */
    method OnDeadline(now: nat, http: nat) returns (v: Verdict)
      modifies this
      ensures (v, credited) == Fire(hard, old(credited), now, http)
    {
      if hard.Some? && now >= hard.value { return Interrupt; }
      var credit := if http > credited then http - credited else 0;
      var extend := credit / EPOCH_TICK;
      if extend == 0 { return Interrupt; }
      if hard.Some? {
        var cap := (hard.value - now) / EPOCH_TICK;
        if cap < 1 { cap := 1; }
        if cap < extend { extend := cap; }
      }
      credited := credited + EPOCH_TICK * extend;
      v := Continue(extend);
    }
  }

  /** What one firing may do: it goes on exactly when the hard deadline is still
      ahead and a whole tick is uncredited; it then extends by at least a tick,
      never by more than is owed, and never reaches a tick past the hard
      deadline. Less than a tick stays owed, unless the hard deadline is less
      than a tick beyond the extension. */
  lemma FiringIsBounded(hard: Option<nat>, credited: nat, now: nat, http: nat)
    requires credited <= http
    ensures var (v, after) := Fire(hard, credited, now, http);
            && (v.Continue? <==> (hard.Some? ==> now < hard.value) && http - credited >= EPOCH_TICK)
            && (v.Continue? ==>
                  && v.extend >= 1
                  && after == credited + v.extend * EPOCH_TICK <= http
                  && (hard.Some? ==> now + v.extend * EPOCH_TICK < hard.value + EPOCH_TICK)
                  && (hard.None? ==> http - after < EPOCH_TICK)
                  && (hard.Some? ==> http - after < EPOCH_TICK || now + (v.extend + 1) * EPOCH_TICK > hard.value))
            && (v.Interrupt? ==> after == credited)
  {
    var credit := http - credited;
    var extend := credit / EPOCH_TICK;
    assert extend * EPOCH_TICK <= credit < extend * EPOCH_TICK + EPOCH_TICK;
    if hard.Some? && now < hard.value {
      var left := (hard.value - now) / EPOCH_TICK;
      assert left * EPOCH_TICK <= hard.value - now;
    }
  }

  // ------------------------------------------------------------------ runs

  datatype Firing = Firing(now: nat, http: nat)

  /** The clock and the http counter only grow. */
  predicate Grows(last: Firing, fs: seq<Firing>)
    decreases |fs|
  {
    fs == [] || (last.now <= fs[0].now && last.http <= fs[0].http && Grows(fs[0], fs[1..]))
  }

  /** Each firing's verdict, up to the first interrupt. */
  function Verdicts(hard: Option<nat>, credited: nat, fs: seq<Firing>): seq<Verdict>
    decreases |fs|
  {
    if fs == [] then []
    else
      var (v, after) := Fire(hard, credited, fs[0].now, fs[0].http);
      [v] + (if v.Interrupt? then [] else Verdicts(hard, after, fs[1..]))
  }

  function Extended(vs: seq<Verdict>): nat {
    if vs == [] then 0
    else (match vs[0] case Continue(e) => e case Interrupt => 0) + Extended(vs[1..])
  }

  function Continues(vs: seq<Verdict>): nat {
    if vs == [] then 0 else (if vs[0].Continue? then 1 else 0) + Continues(vs[1..])
  }

  /** The last http reading of the firings a run got to. */
  function LastHttp(start: nat, fs: seq<Firing>, n: nat): nat
    requires n <= |fs|
  {
    if n == 0 then start else fs[n - 1].http
  }

  /** Over any run of firings: the ticks handed out never exceed the time
      counted in wasi:http beyond what was credited before, each continue spends
      one of them, and only the last firing can be the interrupt. */
  lemma {:induction false} CreditIsBacked(hard: Option<nat>, credited: nat, last: Firing, fs: seq<Firing>)
    requires credited <= last.http && Grows(last, fs)
    ensures var vs := Verdicts(hard, credited, fs);
            && |vs| <= |fs|
            && Continues(vs) <= Extended(vs)
            && credited + Extended(vs) * EPOCH_TICK <= LastHttp(last.http, fs, |vs|)
            && Continues(vs) * EPOCH_TICK <= LastHttp(last.http, fs, |vs|) - credited
            && (forall i :: 0 <= i < |vs| - 1 ==> vs[i].Continue?)
            && (|vs| < |fs| ==> |vs| > 0 && vs[|vs| - 1].Interrupt?)
    decreases |fs|
  {
    if fs != [] {
      var f := fs[0];
      FiringIsBounded(hard, credited, f.now, f.http);
      var (v, after) := Fire(hard, credited, f.now, f.http);
      var vs := Verdicts(hard, credited, fs);
      if v.Continue? {
        CreditIsBacked(hard, after, f, fs[1..]);
        var rest := Verdicts(hard, after, fs[1..]);
        assert vs[1..] == rest;
        assert LastHttp(last.http, fs, |vs|) == LastHttp(f.http, fs[1..], |rest|);
        assert (v.extend + Extended(rest)) * EPOCH_TICK == v.extend * EPOCH_TICK + Extended(rest) * EPOCH_TICK;
        forall i | 0 <= i < |vs| - 1 ensures vs[i].Continue? {
          if i > 0 { assert vs[i] == rest[i - 1]; }
        }
      } else {
        assert vs == [v] && vs[1..] == [];
      }
    }
  }

  /** Nothing owed is withheld when there is no hard deadline: if the run is
      still going, all but a fraction of a tick of the http time was credited. */
  lemma {:induction false} CreditIsComplete(credited: nat, last: Firing, fs: seq<Firing>)
    requires credited <= last.http && Grows(last, fs) && fs != []
    requires |Verdicts(None, credited, fs)| == |fs|
    ensures var vs := Verdicts(None, credited, fs);
            fs[|fs| - 1].http - (credited + Extended(vs) * EPOCH_TICK) < EPOCH_TICK
    decreases |fs|
  {
    var f := fs[0];
    FiringIsBounded(None, credited, f.now, f.http);
    var (v, after) := Fire(None, credited, f.now, f.http);
    var vs := Verdicts(None, credited, fs);
    if v.Continue? && |fs| > 1 {
      var rest := Verdicts(None, after, fs[1..]);
      assert vs[1..] == rest;
      CreditIsComplete(after, f, fs[1..]);
      assert (v.extend + Extended(rest)) * EPOCH_TICK == v.extend * EPOCH_TICK + Extended(rest) * EPOCH_TICK;
    } else {
      assert vs[1..] == [];
    }
  }

  /** No firing at or past the hard deadline lets the run go on. */
  lemma {:induction false} HardDeadlineHolds(h: nat, credited: nat, last: Firing, fs: seq<Firing>, i: nat)
    requires credited <= last.http && Grows(last, fs) && i < |Verdicts(Some(h), credited, fs)| <= |fs|
    ensures var v := Verdicts(Some(h), credited, fs)[i];
            v.Continue? ==> fs[i].now < h && fs[i].now + v.extend * EPOCH_TICK < h + EPOCH_TICK
    decreases |fs|
  {
    var f := fs[0];
    FiringIsBounded(Some(h), credited, f.now, f.http);
    var (v, after) := Fire(Some(h), credited, f.now, f.http);
    if i > 0 { HardDeadlineHolds(h, after, f, fs[1..], i - 1); }
  }

  // ------------------------------------------------- what http time can be

  /** One wasi:http send; the hooks add its length to the counter. */
  datatype Send = Send(start: nat, end: nat)

  predicate WithinRun(begin: nat, deadline: nat, sends: seq<Send>) {
    forall i :: 0 <= i < |sends| ==> begin <= sends[i].start <= sends[i].end <= deadline
  }

  predicate OneAtATime(sends: seq<Send>) {
    forall i, j :: 0 <= i < j < |sends| ==> sends[i].end <= sends[j].start
  }

  function Elapsed(s: Send): nat {
    if s.end > s.start then s.end - s.start else 0
  }

  function HttpTotal(sends: seq<Send>): nat {
    if sends == [] then 0 else Elapsed(sends[0]) + HttpTotal(sends[1..])
  }

  lemma {:induction false} SequentialHttpTotal(begin: nat, deadline: nat, sends: seq<Send>)
    requires begin <= deadline && WithinRun(begin, deadline, sends) && OneAtATime(sends)
    ensures HttpTotal(sends) <= deadline - begin
    decreases |sends|
  {
    if sends != [] {
      SequentialHttpTotal(sends[0].end, deadline, sends[1..]);
    }
  }

  predicate Counts(fs: seq<Firing>, total: nat) {
    forall i :: 0 <= i < |fs| ==> fs[i].http <= total
  }

  /** A run's own ticks and those credited back, as time. */
  function Given(hard: Option<nat>, budget: nat, fs: seq<Firing>): nat {
    (DeadlineTicks(budget) + Extended(Verdicts(hard, 0, fs))) * EPOCH_TICK
  }

  /** The most a run can be given is its own ticks and the counted http time in
      whole ticks. */
  lemma GivenIsBounded(hard: Option<nat>, begin: nat, budget: nat, total: nat, fs: seq<Firing>)
    requires Grows(Firing(begin, 0), fs) && Counts(fs, total)
    ensures Given(hard, budget, fs) <= (DeadlineTicks(budget) + total / EPOCH_TICK) * EPOCH_TICK
  {
    CreditIsBacked(hard, 0, Firing(begin, 0), fs);
    var e := Extended(Verdicts(hard, 0, fs));
    assert e * EPOCH_TICK <= total;
    assert e <= total / EPOCH_TICK;
  }

  /** And one firing that finds all of it counted gives it. */
  lemma GivenIsReached(begin: nat, budget: nat, total: nat)
    ensures var fs := [Firing(begin, total)];
            && Grows(Firing(begin, 0), fs) && Counts(fs, total)
            && Given(None, budget, fs) == (DeadlineTicks(budget) + total / EPOCH_TICK) * EPOCH_TICK
  {
    var f := Firing(begin, total);
    var (v, after) := Fire(None, 0, f.now, f.http);
    var vs := Verdicts(None, 0, [f]);
    assert [f][1..] == [] && Verdicts(None, after, []) == [];
    assert vs == [v] && vs[1..] == [] && Extended([]) == 0;
    assert (total - 0) / EPOCH_TICK == total / EPOCH_TICK;
    assert Extended(vs) == (match v case Continue(e) => e case Interrupt => 0) == total / EPOCH_TICK;
  }

  // ------------------------------------------------ how long a run lasts

  /** When a run that is due at `due` ends: at the firing that interrupts it,
      or, while it goes on, at the deadline its last firing set. A firing comes
      when the guest next runs, and a deadline counts from the firing that sets
      it. */
  function EndsAt(due: nat, hard: Option<nat>, credited: nat, fs: seq<Firing>): nat
    decreases |fs|
  {
    if fs == [] then due
    else
      match Fire(hard, credited, fs[0].now, fs[0].http)
      case (Interrupt, _) => fs[0].now
      case (Continue(e), after) => EndsAt(fs[0].now + e * EPOCH_TICK, hard, after, fs[1..])
  }

  /** How long the guest stayed in the host past its deadlines, all told. */
  function Lateness(due: nat, hard: Option<nat>, credited: nat, fs: seq<Firing>): nat
    decreases |fs|
  {
    if fs == [] then 0
    else
      (if fs[0].now > due then fs[0].now - due else 0) +
      match Fire(hard, credited, fs[0].now, fs[0].http)
      case (Interrupt, _) => 0
      case (Continue(e), after) => Lateness(fs[0].now + e * EPOCH_TICK, hard, after, fs[1..])
  }

  /** No firing comes before it is due. */
  predicate NoneEarly(due: nat, hard: Option<nat>, credited: nat, fs: seq<Firing>)
    decreases |fs|
  {
    fs == [] ||
    (fs[0].now >= due &&
     match Fire(hard, credited, fs[0].now, fs[0].http)
     case (Interrupt, _) => true
     case (Continue(e), after) => NoneEarly(fs[0].now + e * EPOCH_TICK, hard, after, fs[1..]))
  }

  lemma {:induction false} EndIsDuePlusLateness(due: nat, hard: Option<nat>, credited: nat, fs: seq<Firing>)
    ensures var extension := Extended(Verdicts(hard, credited, fs)) * EPOCH_TICK;
            && EndsAt(due, hard, credited, fs) <= due + extension + Lateness(due, hard, credited, fs)
            && (NoneEarly(due, hard, credited, fs) ==>
                  EndsAt(due, hard, credited, fs) == due + extension + Lateness(due, hard, credited, fs))
    decreases |fs|
  {
    hide Fire;
    if fs != [] {
      var (v, after) := Fire(hard, credited, fs[0].now, fs[0].http);
      var vs := Verdicts(hard, credited, fs);
      if v.Continue? {
        var rest := Verdicts(hard, after, fs[1..]);
        EndIsDuePlusLateness(fs[0].now + v.extend * EPOCH_TICK, hard, after, fs[1..]);
        assert vs == [v] + rest && vs[1..] == rest;
        assert (v.extend + Extended(rest)) * EPOCH_TICK == v.extend * EPOCH_TICK + Extended(rest) * EPOCH_TICK;
      } else {
        assert vs == [v] && vs[1..] == [] && Extended([]) == 0;
      }
    }
  }

  function Due(begin: nat, budget: nat): nat {
    begin + DeadlineTicks(budget) * EPOCH_TICK
  }

  /** A run lasts what it is given and as long as it is late, no longer, and
      exactly that when no firing comes early. */
  lemma RunLastsGivenAndLateness(hard: Option<nat>, begin: nat, budget: nat, fs: seq<Firing>)
    ensures var end, late := EndsAt(Due(begin, budget), hard, 0, fs), Lateness(Due(begin, budget), hard, 0, fs);
            && end <= begin + Given(hard, budget, fs) + late
            && (NoneEarly(Due(begin, budget), hard, 0, fs) ==> end == begin + Given(hard, budget, fs) + late)
  {
    hide EndsAt, Lateness, NoneEarly, Verdicts, DeadlineTicks;
    EndIsDuePlusLateness(Due(begin, budget), hard, 0, fs);
    Both(DeadlineTicks(budget), Extended(Verdicts(hard, 0, fs)));
  }

  lemma Both(d: nat, e: nat)
    ensures (d + e) * EPOCH_TICK == d * EPOCH_TICK + e * EPOCH_TICK
  {}

  /** Whatever its firings, a run with that much http time counted, at most
      that late, ends within twice its budget and a tick. */
  ghost predicate TwiceAtMost(begin: nat, budget: nat, total: nat, late: nat) {
    forall hard, fs ::
      Grows(Firing(begin, 0), fs) && Counts(fs, total) && Lateness(Due(begin, budget), hard, 0, fs) <= late ==>
        EndsAt(Due(begin, budget), hard, 0, fs) < begin + 2 * budget + EPOCH_TICK
  }

  /** One firing that comes that late and finds all of it counted. */
  lemma LongestRun(begin: nat, budget: nat, total: nat, late: nat)
    ensures var fs := [Firing(Due(begin, budget) + late, total)];
            && Grows(Firing(begin, 0), fs) && Counts(fs, total) && NoneEarly(Due(begin, budget), None, 0, fs)
            && Lateness(Due(begin, budget), None, 0, fs) == late
            && EndsAt(Due(begin, budget), None, 0, fs) == begin + (DeadlineTicks(budget) + total / EPOCH_TICK) * EPOCH_TICK + late
  {
    hide DeadlineTicks, Verdicts, Given;
    var due := Due(begin, budget);
    var f := Firing(due + late, total);
    GivenIsReached(due + late, budget, total);
    var (v, after) := Fire(None, 0, f.now, f.http);
    assert [f][1..] == [];
    if v.Continue? {
      assert Lateness(f.now + v.extend * EPOCH_TICK, None, after, []) == 0;
      assert NoneEarly(f.now + v.extend * EPOCH_TICK, None, after, []);
    }
    RunLastsGivenAndLateness(None, begin, budget, [f]);
  }

  /** So every such run ends within twice its budget exactly when the counted
      time, in whole ticks, and the lateness fit beside its own ticks. */
  lemma TwiceTheBudgetExactly(begin: nat, budget: nat, total: nat, late: nat)
    ensures TwiceAtMost(begin, budget, total, late) <==>
            (DeadlineTicks(budget) + total / EPOCH_TICK) * EPOCH_TICK + late < 2 * budget + EPOCH_TICK
  {
    hide DeadlineTicks, Verdicts, Given, Counts, Grows, EndsAt, Lateness, NoneEarly, Due;
    LongestRun(begin, budget, total, late);
    forall hard, fs |
      Grows(Firing(begin, 0), fs) && Counts(fs, total) && Lateness(Due(begin, budget), hard, 0, fs) <= late
      ensures EndsAt(Due(begin, budget), hard, 0, fs) <= begin + (DeadlineTicks(budget) + total / EPOCH_TICK) * EPOCH_TICK + late
    {
      GivenIsBounded(hard, begin, budget, total, fs);
      RunLastsGivenAndLateness(hard, begin, budget, fs);
    }
  }

  /** A run that is never late, and whose sends follow one another and end by
      its deadline, meets it. */
  lemma AtMostTwiceTheBudget(begin: nat, budget: nat, sends: seq<Send>)
    requires WithinRun(begin, begin + budget, sends) && OneAtATime(sends) && budget > 0
    ensures TwiceAtMost(begin, budget, HttpTotal(sends), 0)
  {
    SequentialHttpTotal(begin, begin + budget, sends);
    TwiceTheBudgetExactly(begin, budget, HttpTotal(sends), 0);
    TicksFit(budget, HttpTotal(sends));
  }

  lemma TicksFit(budget: nat, total: nat)
    requires total <= budget && budget > 0
    ensures (DeadlineTicks(budget) + total / EPOCH_TICK) * EPOCH_TICK < 2 * budget + EPOCH_TICK
  {
    assert DeadlineTicks(budget) * EPOCH_TICK < budget + EPOCH_TICK;
    assert total / EPOCH_TICK * EPOCH_TICK <= total;
  }

  /** Three ways it fails. Three concurrent sends that each fill a one-second
      budget are credited three seconds at once. */
  lemma OverlappingSendsExceedTwice()
    ensures var budget := 100 * EPOCH_TICK;
            var sends := [Send(0, budget), Send(0, budget), Send(0, budget)];
            WithinRun(0, budget, sends) && !TwiceAtMost(0, budget, HttpTotal(sends), 0)
  {
    var budget := 100 * EPOCH_TICK;
    var sends := [Send(0, budget), Send(0, budget), Send(0, budget)];
    ThreeSends(sends[0], sends[1], sends[2], budget);
    TwiceTheBudgetExactly(0, budget, HttpTotal(sends), 0);
    FourBudgets();
  }

  lemma ThreeSends(a: Send, b: Send, c: Send, budget: nat)
    requires Elapsed(a) == Elapsed(b) == Elapsed(c) == budget
    ensures HttpTotal([a, b, c]) == 3 * budget
  {
    assert [a, b, c][1..] == [b, c] && [b, c][1..] == [c] && [c][1..] == [];
    assert HttpTotal([]) == 0 && HttpTotal([c]) == budget && HttpTotal([b, c]) == 2 * budget;
  }

  lemma FourBudgets()
    ensures var budget := 100 * EPOCH_TICK;
            (DeadlineTicks(budget) + 3 * budget / EPOCH_TICK) * EPOCH_TICK == 4 * budget
  {}

  /** Sends one after another, each held open by a request body the guest is
      slow to finish: the collection of a body is counted and no deadline
      bounds it. Every firing comes on time, finds another budget's worth, and
      the run goes on to four budgets. */
  lemma SlowBodiesExceedTwice()
    ensures var b := 100 * EPOCH_TICK;
            var sends := [Send(0, b), Send(b, 2 * b), Send(2 * b, 3 * b)];
            var fs := [Firing(b, b), Firing(2 * b, 2 * b), Firing(3 * b, 3 * b)];
            && OneAtATime(sends) && Grows(Firing(0, 0), fs) && Counts(fs, HttpTotal(sends))
            && Lateness(b, None, 0, fs) == 0 && EndsAt(b, None, 0, fs) == 4 * b
            && Due(0, b) == b && !TwiceAtMost(0, b, HttpTotal(sends), 0)
  {
    var b := 100 * EPOCH_TICK;
    var sends := [Send(0, b), Send(b, 2 * b), Send(2 * b, 3 * b)];
    var f, g, h := Firing(b, b), Firing(2 * b, 2 * b), Firing(3 * b, 3 * b);
    ThreeSends(sends[0], sends[1], sends[2], b);
    assert [f, g, h][1..] == [g, h] && [g, h][1..] == [h] && [h][1..] == [];
    assert Grows(h, []) && Grows(g, [h]) && Grows(f, [g, h]);
    var c := Continue(100);
    assert Fire(None, 0, b, b) == (c, b) && Fire(None, b, 2 * b, 2 * b) == (c, 2 * b) && Fire(None, 2 * b, 3 * b, 3 * b) == (c, 3 * b);
    assert EndsAt(4 * b, None, 3 * b, []) == 4 * b && Lateness(4 * b, None, 3 * b, []) == 0;
    assert EndsAt(3 * b, None, 2 * b, [h]) == 4 * b && Lateness(3 * b, None, 2 * b, [h]) == 0;
    assert EndsAt(2 * b, None, b, [g, h]) == 4 * b && Lateness(2 * b, None, b, [g, h]) == 0;
    TwiceTheBudgetExactly(0, b, HttpTotal(sends), 0);
    FourBudgets();
  }

  /** And a guest that waits in the host across its deadline: one send within
      its budget, and a firing ten budgets in, which credits that send and lets
      the run go on to eleven. */
  lemma LateFiringExceedsTwice()
    ensures var b := 100 * EPOCH_TICK;
            var sends, fs := [Send(0, b)], [Firing(10 * b, b)];
            && WithinRun(0, b, sends) && OneAtATime(sends) && Grows(Firing(0, 0), fs) && Counts(fs, HttpTotal(sends))
            && Given(None, b, fs) == 2 * b && TwiceAtMost(0, b, HttpTotal(sends), 0)
            && Due(0, b) == b && Lateness(b, None, 0, fs) == 9 * b && EndsAt(b, None, 0, fs) == 11 * b
  {
    var b := 100 * EPOCH_TICK;
    var s, f := Send(0, b), Firing(10 * b, b);
    assert [s][1..] == [] && HttpTotal([]) == 0 && HttpTotal([s]) == b;
    AtMostTwiceTheBudget(0, b, [s]);
    assert [f][1..] == [] && Fire(None, 0, f.now, f.http) == (Continue(100), b);
    assert EndsAt(11 * b, None, b, []) == 11 * b && Lateness(11 * b, None, b, []) == 0;
    GivenIsReached(10 * b, b, b);
  }
}
