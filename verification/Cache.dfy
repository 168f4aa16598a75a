/** The module cache (crates/function/src/cache.rs): the memory tier, the
    flights that share one load, and the permits that bound compiles. The
    engine, the store and the fetch are steps with any outcome; tokio's
    `OnceCell` and `Semaphore` are a cell with one loader and a count. */
module Cache {
  import opened Base

  type Digest = string
  type Module = nat

  datatype Entry = Entry(compiled: Module, lastUsed: int)

  type Entries = map<Digest, Entry>

  /** `max_concurrent_compiles` is the option as given; zero counts as one. */
  datatype Options = Options(ttl: int, noMemory: bool, maxEntries: nat, maxCompiles: nat)

  function Permits(o: Options): nat {
    if o.maxCompiles == 0 then 1 else o.maxCompiles
  }

  // ---------------------------------------------------------- memory tier

  function Unexpired(o: Options, e: Entries, now: int): Entries {
    map d | d in e && now - e[d].lastUsed < o.ttl :: e[d]
  }

  /** What a lookup finds, and the entries it leaves. */
  function Got(o: Options, e: Entries, d: Digest, now: int): (Option<Module>, Entries) {
    if o.noMemory then (None, e)
    else
      var kept := Unexpired(o, e, now);
      if d in kept then (Some(kept[d].compiled), kept[d := Entry(kept[d].compiled, now)]) else (None, kept)
  }

  /** The least recently used entries of `full` dropped to fit the bound; ties
      may fall either way, as they do in a hash map's order. */
  ghost predicate Trimmed(o: Options, full: Entries, r: Entries) {
    && r.Keys <= full.Keys && (forall d :: d in r ==> r[d] == full[d])
    && |r| == (if o.maxEntries > 0 && |full| > o.maxEntries then o.maxEntries else |full|)
    && (forall d, k :: d in full && d !in r && k in r ==> full[d].lastUsed <= full[k].lastUsed)
  }

  ghost predicate MayPut(o: Options, e: Entries, d: Digest, m: Module, now: int, r: Entries) {
    if o.noMemory then r == e else Trimmed(o, e[d := Entry(m, now)], r)
  }

  type Flights = map<Digest, nat>

  /** The cell of a digest's flight, registered as number `cells` if there was
      none, and the flights and the cell count then. */
  function Joined(loading: Flights, cells: nat, d: Digest): (Flights, nat, nat) {
    if d in loading then (loading, cells, loading[d]) else (loading[d := cells], cells + 1, cells)
  }

  function LeftFrom(loading: Flights, d: Digest): Flights {
    loading - {d}
  }

  class ModuleCache {
    const options: Options
    var entries: Entries
    var loading: Flights
    var cells: nat

    constructor (options: Options)
      ensures this.options == options && entries == map[] && loading == map[] && cells == 0
    {
      this.options := options;
      entries, loading, cells := map[], map[], 0;
    }

    method MemoryGet(digest: Digest, now: int) returns (r: Option<Module>)
      modifies this`entries
      ensures (r, entries) == Got(options, old(entries), digest, now)
    {
      if options.noMemory { return None; }
      entries := map d | d in entries && now - entries[d].lastUsed < options.ttl :: entries[d];
      if digest !in entries { return None; }
      entries := entries[digest := entries[digest].(lastUsed := now)];
      r := Some(entries[digest].compiled);
    }

    /** `min_by_key` over the entries */
    method Oldest() returns (oldest: Digest)
      requires |entries| > 0
      ensures oldest in entries && forall d :: d in entries ==> entries[oldest].lastUsed <= entries[d].lastUsed
    {
      oldest :| oldest in entries;
      var rest := entries.Keys - {oldest};
      while rest != {}
        invariant rest <= entries.Keys && oldest in entries
        invariant forall d :: d in entries && d !in rest ==> entries[oldest].lastUsed <= entries[d].lastUsed
        decreases |rest|
      {
        var d :| d in rest;
        rest := rest - {d};
        if entries[d].lastUsed < entries[oldest].lastUsed { oldest := d; }
      }
    }

    method MemoryPut(digest: Digest, m: Module, now: int)
      modifies this`entries
      ensures MayPut(options, old(entries), digest, m, now, entries)
    {
      if options.noMemory { return; }
      entries := entries[digest := Entry(m, now)];
      ghost var full := entries;
      if options.maxEntries > 0 {
        while |entries| > options.maxEntries
          invariant entries.Keys <= full.Keys && forall d :: d in entries ==> entries[d] == full[d]
          invariant |full| > options.maxEntries ==> |entries| >= options.maxEntries
          invariant |full| <= options.maxEntries ==> entries == full
          invariant forall d, k :: d in full && d !in entries && k in entries ==> full[d].lastUsed <= full[k].lastUsed
        {
          var oldest := Oldest();
          ghost var was := entries;
          entries := entries - {oldest};
          OneFewer(was, entries, oldest);
        }
      }
    }

    /** `loading.entry(digest).or_default()` */
    method JoinFlight(digest: Digest) returns (cell: nat)
      modifies this`loading, this`cells
      ensures (loading, cells, cell) == Joined(old(loading), old(cells), digest)
    {
      if digest !in loading {
        loading := loading[digest := cells];
        cells := cells + 1;
      }
      cell := loading[digest];
    }

    method LeaveFlight(digest: Digest)
      modifies this`loading
      ensures loading == LeftFrom(old(loading), digest)
    {
      loading := loading - {digest};
    }
  }

  lemma OneFewer(e: Entries, r: Entries, d: Digest)
    requires d in e && r == e - {d}
    ensures |r| == |e| - 1
  {
    assert r.Keys == e.Keys - {d};
    assert |r.Keys| == |r| && |e.Keys| == |e|;
  }

  // ---------------------------------------------------------------- the steps

  /** A `OnceCell`: what it holds and which request is initialising it. */
  datatype Cell = Cell(digest: Digest, loader: Option<nat>, value: Option<Module>)

  /** Where a request is; `cell` is the flight it shares. */
  datatype Phase =
    | Start(digest: Digest)
    | Missed(digest: Digest)
    | Waiting(digest: Digest, cell: nat)
    | OnDisk(digest: Digest, cell: nat)
    | WantsPermit(digest: Digest, cell: nat)
    | Compiling(digest: Digest, cell: nat, thread: nat)
    | Settled(digest: Digest, cell: nat, result: Option<Module>)
    | Left(digest: Digest, m: Module)
    | Done(digest: Digest, result: Option<Module>)
    | Gone(digest: Digest)
  {
    /** Inside `load`. */
    predicate Loads() {
      OnDisk? || WantsPermit? || Compiling?
    }

    /** Inside `get_or_try_init`. */
    predicate OnCell() {
      Waiting? || Loads()
    }
  }

  /** A compile on its thread, which holds a permit until it ends. */
  datatype Thread = Running(digest: Digest) | Ended(digest: Digest, outcome: Option<Module>)

  /** `made` remembers the modules that a compile or the store yielded for a
      digest. */
  datatype Sys = Sys(
    entries: Entries, loading: Flights, cells: seq<Cell>, reqs: seq<Phase>, threads: seq<Thread>,
    available: nat, made: set<(Digest, Module)>)

  datatype Step =
    | Begin(digest: Digest)
    | Lookup(r: nat, now: int)
    | Join(r: nat)
    | Claim(r: nat)
    | Reuse(r: nat)
    | DiskHit(r: nat, m: Module)
    | DiskMiss(r: nat)
    | Acquire(r: nat)
    | Finish(t: nat, outcome: Option<Module>)
    | Collect(r: nat)
    | TimeOut(r: nat)
    | Leave(r: nat)
    | Put(r: nat, now: int, kept: Entries)
    | Abandon(r: nat)

  function Init(o: Options): Sys {
    Sys(map[], map[], [], [], [], Permits(o), {})
  }

  /** Every index a phase carries is one. */
  predicate InRange(s: Sys, p: Phase) {
    && (p.OnCell() || p.Settled? ==> p.cell < |s.cells| && s.cells[p.cell].digest == p.digest)
    && (p.Compiling? ==> p.thread < |s.threads| && s.threads[p.thread].digest == p.digest)
  }

  predicate Known(s: Sys, r: nat) {
    r < |s.reqs| && InRange(s, s.reqs[r])
  }

  ghost predicate Enabled(o: Options, s: Sys, step: Step) {
    match step
    case Begin(_) => true
    case Lookup(r, _) => Known(s, r) && s.reqs[r].Start?
    case Join(r) => Known(s, r) && s.reqs[r].Missed?
    case Claim(r) =>
      && Known(s, r) && s.reqs[r].Waiting?
      && s.cells[s.reqs[r].cell].value.None? && s.cells[s.reqs[r].cell].loader.None?
    case Reuse(r) => Known(s, r) && s.reqs[r].Waiting? && s.cells[s.reqs[r].cell].value.Some?
    case DiskHit(r, _) => Known(s, r) && s.reqs[r].OnDisk?
    case DiskMiss(r) => Known(s, r) && s.reqs[r].OnDisk?
    case Acquire(r) => Known(s, r) && s.reqs[r].WantsPermit? && s.available > 0
    case Finish(t, _) => t < |s.threads| && s.threads[t].Running?
    case Collect(r) => Known(s, r) && s.reqs[r].Compiling? && s.threads[s.reqs[r].thread].Ended?
    case TimeOut(r) => Known(s, r) && s.reqs[r].Compiling?
    case Leave(r) => Known(s, r) && s.reqs[r].Settled?
    case Put(r, now, kept) =>
      Known(s, r) && s.reqs[r].Left? && MayPut(o, s.entries, s.reqs[r].digest, s.reqs[r].m, now, kept)
    case Abandon(r) => Known(s, r) && !s.reqs[r].Done? && !s.reqs[r].Gone?
  }

  function Moved(s: Sys, r: nat, p: Phase): Sys
    requires r < |s.reqs|
  {
    s.(reqs := s.reqs[r := p])
  }

  /** The load of `r` returns: its cell takes a module, or is free again. */
  function Settle(s: Sys, r: nat, result: Option<Module>): Sys
    requires r < |s.reqs| && s.reqs[r].Loads() && InRange(s, s.reqs[r])
  {
    var p := s.reqs[r];
    Moved(s, r, Phase.Settled(p.digest, p.cell, result)).(
    cells := s.cells[p.cell := s.cells[p.cell].(loader := None, value := result)])
  }

  function Apply(o: Options, s: Sys, step: Step): Sys
    requires Enabled(o, s, step)
  {
    match step
    case Begin(d) => s.(reqs := s.reqs + [Start(d)])
    case Lookup(r, now) =>
      var d := s.reqs[r].digest;
      var (found, entries) := Got(o, s.entries, d, now);
      Moved(s, r, if found.Some? then Done(d, found) else Missed(d)).(entries := entries)
    case Join(r) =>
      var d := s.reqs[r].digest;
      var (loading, count, cell) := Joined(s.loading, |s.cells|, d);
      Moved(s, r, Waiting(d, cell)).(
      loading := loading,
      cells := if count > |s.cells| then s.cells + [Cell(d, None, None)] else s.cells)
    case Claim(r) =>
      var p := s.reqs[r];
      Moved(s, r, OnDisk(p.digest, p.cell)).(cells := s.cells[p.cell := s.cells[p.cell].(loader := Some(r))])
    case Reuse(r) =>
      var p := s.reqs[r];
      Moved(s, r, Phase.Settled(p.digest, p.cell, s.cells[p.cell].value))
    case DiskHit(r, m) => Settle(s, r, Some(m)).(made := s.made + {(s.reqs[r].digest, m)})
    case DiskMiss(r) => Moved(s, r, WantsPermit(s.reqs[r].digest, s.reqs[r].cell))
    case Acquire(r) =>
      var p := s.reqs[r];
      Moved(s, r, Compiling(p.digest, p.cell, |s.threads|)).(
      threads := s.threads + [Running(p.digest)],
      available := s.available - 1)
    case Finish(t, outcome) =>
      var d := s.threads[t].digest;
      s.(threads := s.threads[t := Ended(d, outcome)],
      available := s.available + 1,
      made := if outcome.Some? then s.made + {(d, outcome.value)} else s.made)
    case Collect(r) => Settle(s, r, s.threads[s.reqs[r].thread].outcome)
    case TimeOut(r) => Settle(s, r, None)
    case Leave(r) =>
      var p := s.reqs[r];
      Moved(s, r, if p.result.Some? then Left(p.digest, p.result.value) else Done(p.digest, None)).(
      loading := LeftFrom(s.loading, p.digest))
    case Put(r, _, kept) => Moved(s, r, Done(s.reqs[r].digest, Some(s.reqs[r].m))).(entries := kept)
    case Abandon(r) =>
      var p := s.reqs[r];
      var freed := if p.Loads() then s.cells[p.cell := s.cells[p.cell].(loader := None)] else s.cells;
      Moved(s, r, Gone(p.digest)).(cells := freed)
  }

  ghost predicate Runs(o: Options, s: Sys, steps: seq<Step>)
    decreases |steps|
  {
    steps == [] || (Enabled(o, s, steps[0]) && Runs(o, Apply(o, s, steps[0]), steps[1..]))
  }

  function After(o: Options, s: Sys, steps: seq<Step>): Sys
    requires Runs(o, s, steps)
    decreases |steps|
  {
    if steps == [] then s else After(o, Apply(o, s, steps[0]), steps[1..])
  }

  // ------------------------------------------------------------- invariants

  ghost predicate PhasesOk(s: Sys) {
    forall r :: 0 <= r < |s.reqs| ==> InRange(s, s.reqs[r])
  }

  ghost predicate FlightsOk(s: Sys) {
    forall d :: d in s.loading ==> s.loading[d] < |s.cells| && s.cells[s.loading[d]].digest == d
  }

  predicate LoaderOf(s: Sys, r: nat)
    requires r < |s.reqs|
  {
    s.reqs[r].Loads() ==> s.reqs[r].cell < |s.cells| && s.cells[s.reqs[r].cell].loader == Some(r)
  }

  predicate LoadedBy(s: Sys, c: nat)
    requires c < |s.cells|
  {
    s.cells[c].loader.Some? ==>
      var r := s.cells[c].loader.value;
      s.cells[c].value.None? && r < |s.reqs| && s.reqs[r].Loads() && s.reqs[r].cell == c
  }

  /** A cell's loader is the one request that loads on it, and a cell that
      holds a module has none. */
  ghost predicate LoadersOk(s: Sys) {
    && (forall r: nat :: r < |s.reqs| ==> LoaderOf(s, r))
    && (forall c: nat :: c < |s.cells| ==> LoadedBy(s, c))
  }

  function CountRunning(threads: seq<Thread>): nat {
    if threads == [] then 0 else (if threads[|threads| - 1].Running? then 1 else 0) + CountRunning(threads[..|threads| - 1])
  }

  /** Every permit is free or with a thread that still runs. */
  ghost predicate PermitsOk(o: Options, s: Sys) {
    s.available + CountRunning(s.threads) == Permits(o)
  }

  type Made = set<(Digest, Module)>

  predicate ResultOk(made: Made, p: Phase) {
    && (p.Left? ==> (p.digest, p.m) in made)
    && ((p.Settled? || p.Done?) && p.result.Some? ==> (p.digest, p.result.value) in made)
  }

  predicate CellOk(made: Made, c: Cell) {
    c.value.Some? ==> (c.digest, c.value.value) in made
  }

  predicate ThreadOk(made: Made, t: Thread) {
    t.Ended? && t.outcome.Some? ==> (t.digest, t.outcome.value) in made
  }

  ghost predicate EntriesOk(made: Made, e: Entries) {
    forall d :: d in e ==> (d, e[d].compiled) in made
  }

  /** Every module anywhere under a digest was made for that digest. */
  ghost predicate ModulesOk(s: Sys) {
    && EntriesOk(s.made, s.entries)
    && (forall c: nat :: c < |s.cells| ==> CellOk(s.made, s.cells[c]))
    && (forall t: nat :: t < |s.threads| ==> ThreadOk(s.made, s.threads[t]))
    && (forall r: nat :: r < |s.reqs| ==> ResultOk(s.made, s.reqs[r]))
  }

  ghost predicate SizeOk(o: Options, s: Sys) {
    (o.maxEntries > 0 ==> |s.entries| <= o.maxEntries) && (o.noMemory ==> s.entries == map[])
  }

  ghost predicate Inv(o: Options, s: Sys) {
    PhasesOk(s) && FlightsOk(s) && LoadersOk(s) && PermitsOk(o, s) && ModulesOk(s) && SizeOk(o, s)
  }

  /** Cells and threads are only added, each for one digest. */
  ghost predicate Grows(s: Sys, t: Sys) {
    && |s.cells| <= |t.cells| && (forall c :: 0 <= c < |s.cells| ==> t.cells[c].digest == s.cells[c].digest)
    && |s.threads| <= |t.threads| && (forall i :: 0 <= i < |s.threads| ==> t.threads[i].digest == s.threads[i].digest)
  }

  lemma StepGrows(o: Options, s: Sys, step: Step)
    requires Enabled(o, s, step)
    ensures Grows(s, Apply(o, s, step))
  {
    hide Got, MayPut;
  }

  /** A step moves one request, or adds one, or none. */
  ghost predicate MovesTo(s: Sys, t: Sys, r: nat, p: Phase) {
    r <= |s.reqs| && t.reqs == (if r < |s.reqs| then s.reqs[r := p] else s.reqs + [p])
  }

  function Mover(s: Sys, step: Step): nat {
    match step
    case Begin(_) => |s.reqs|
    case Finish(_, _) => 0
    case _ => step.r
  }

  lemma StepMoves(o: Options, s: Sys, step: Step)
    requires Enabled(o, s, step) && FlightsOk(s)
    ensures var t := Apply(o, s, step);
            && (step.Finish? ==> t.reqs == s.reqs)
            && (!step.Finish? ==>
                  && Mover(s, step) < |t.reqs| && MovesTo(s, t, Mover(s, step), t.reqs[Mover(s, step)])
                  && InRange(t, t.reqs[Mover(s, step)]))
  {
    hide Got, MayPut;
  }

  lemma StepKeepsFlights(o: Options, s: Sys, step: Step)
    requires FlightsOk(s) && Enabled(o, s, step)
    ensures FlightsOk(Apply(o, s, step))
  {
    hide Got, MayPut;
    StepGrows(o, s, step);
    var t := Apply(o, s, step);
    assert forall d :: d in t.loading ==> (d in s.loading && t.loading[d] == s.loading[d]) || (step.Join? && d == s.reqs[step.r].digest);
  }

  lemma StepKeepsPhases(o: Options, s: Sys, step: Step)
    requires PhasesOk(s) && FlightsOk(s) && Enabled(o, s, step)
    ensures PhasesOk(Apply(o, s, step))
  {
    hide Enabled, Apply, FlightsOk;
    StepGrows(o, s, step);
    StepMoves(o, s, step);
  }

  /** A request that stays in `load` on its cell, or stays out of it. */
  lemma MoveKeepsLoaders(s: Sys, r: nat, p: Phase, cells: seq<Cell>, t: Sys)
    requires LoadersOk(s) && r < |s.reqs|
    requires p.Loads() == s.reqs[r].Loads() && (p.Loads() ==> p.cell == s.reqs[r].cell)
    requires s.cells <= cells && forall c :: |s.cells| <= c < |cells| ==> cells[c].loader.None?
    requires t.reqs == s.reqs[r := p] && t.cells == cells
    ensures LoadersOk(t)
  {
    assert LoaderOf(s, r);
    forall q: nat | q < |t.reqs| ensures LoaderOf(t, q) { assert q < |s.reqs| ==> LoaderOf(s, q); }
    forall c: nat | c < |t.cells| ensures LoadedBy(t, c) { assert c < |s.cells| ==> LoadedBy(s, c); }
  }

  lemma ClaimKeepsLoaders(s: Sys, r: nat, t: Sys)
    requires LoadersOk(s) && r < |s.reqs| && s.reqs[r].Waiting? && s.reqs[r].cell < |s.cells|
    requires var p := s.reqs[r];
             && s.cells[p.cell].value.None? && s.cells[p.cell].loader.None?
             && t.reqs == s.reqs[r := OnDisk(p.digest, p.cell)]
             && t.cells == s.cells[p.cell := s.cells[p.cell].(loader := Some(r))]
    ensures LoadersOk(t)
  {
    forall q: nat | q < |t.reqs| ensures LoaderOf(t, q) { assert q < |s.reqs| ==> LoaderOf(s, q); }
    forall c: nat | c < |t.cells| ensures LoadedBy(t, c) { assert c < |s.cells| ==> LoadedBy(s, c); }
  }

  lemma FreeKeepsLoaders(s: Sys, r: nat, p: Phase, value: Option<Module>, t: Sys)
    requires LoadersOk(s) && r < |s.reqs| && s.reqs[r].Loads() && s.reqs[r].cell < |s.cells| && !p.Loads()
    requires t.reqs == s.reqs[r := p]
    requires var c := s.reqs[r].cell; t.cells == s.cells[c := Cell(s.cells[c].digest, None, value)]
    ensures LoadersOk(t)
  {
    assert LoaderOf(s, r);
    forall q: nat | q < |t.reqs| ensures LoaderOf(t, q) { assert q < |s.reqs| ==> LoaderOf(s, q); }
    forall c: nat | c < |t.cells| ensures LoadedBy(t, c) { assert c < |s.cells| ==> LoadedBy(s, c); }
  }

  lemma BeginKeepsLoaders(s: Sys, d: Digest, t: Sys)
    requires LoadersOk(s) && t.reqs == s.reqs + [Start(d)] && t.cells == s.cells
    ensures LoadersOk(t)
  {
    forall q: nat | q < |t.reqs| ensures LoaderOf(t, q) { assert q < |s.reqs| ==> LoaderOf(s, q); }
    forall c: nat | c < |t.cells| ensures LoadedBy(t, c) { assert c < |s.cells| ==> LoadedBy(s, c); }
  }

  lemma StepKeepsLoaders(o: Options, s: Sys, step: Step)
    requires FlightsOk(s) && LoadersOk(s) && Enabled(o, s, step)
    ensures LoadersOk(Apply(o, s, step))
  {
    hide Got, MayPut, LoadersOk, FlightsOk;
    var t := Apply(o, s, step);
    match step
    case Begin(d) => BeginKeepsLoaders(s, d, t);
    case Claim(r) => ClaimKeepsLoaders(s, r, t);
    case DiskHit(r, m) => FreeKeepsLoaders(s, r, t.reqs[r], Some(m), t);
    case Collect(r) => FreeKeepsLoaders(s, r, t.reqs[r], s.threads[s.reqs[r].thread].outcome, t);
    case TimeOut(r) => FreeKeepsLoaders(s, r, t.reqs[r], None, t);
    case Abandon(r) =>
      if s.reqs[r].Loads() {
        LoadingIsEmpty(s, r);
        FreeKeepsLoaders(s, r, t.reqs[r], None, t);
      } else {
        MoveKeepsLoaders(s, r, t.reqs[r], t.cells, t);
      }
    case Finish(_, _) => SameLoaders(s, t);
    case _ => MoveKeepsLoaders(s, step.r, t.reqs[step.r], t.cells, t);
  }

  lemma SameLoaders(s: Sys, t: Sys)
    requires LoadersOk(s) && t.reqs == s.reqs && t.cells == s.cells
    ensures LoadersOk(t)
  {
    forall q: nat | q < |t.reqs| ensures LoaderOf(t, q) { assert q < |s.reqs| ==> LoaderOf(s, q); }
    forall c: nat | c < |t.cells| ensures LoadedBy(t, c) { assert c < |s.cells| ==> LoadedBy(s, c); }
  }

  lemma LoadingIsEmpty(s: Sys, r: nat)
    requires LoadersOk(s) && r < |s.reqs| && s.reqs[r].Loads()
    ensures s.reqs[r].cell < |s.cells|
    ensures s.cells[s.reqs[r].cell].value.None? && s.cells[s.reqs[r].cell].loader == Some(r)
  {
    assert LoaderOf(s, r) && LoadedBy(s, s.reqs[r].cell);
  }

  lemma {:induction false} CountUpdate(threads: seq<Thread>, t: nat, ended: Thread)
    requires t < |threads| && threads[t].Running? && ended.Ended?
    ensures CountRunning(threads[t := ended]) == CountRunning(threads) - 1
  {
    var last := |threads| - 1;
    if t == last {
      assert threads[t := ended][..last] == threads[..last];
    } else {
      assert threads[t := ended][..last] == threads[..last][t := ended];
      CountUpdate(threads[..last], t, ended);
    }
  }

  lemma StepKeepsPermits(o: Options, s: Sys, step: Step)
    requires PermitsOk(o, s) && Enabled(o, s, step)
    ensures PermitsOk(o, Apply(o, s, step))
  {
    hide Got, MayPut, InRange;
    if step.Finish? {
      CountUpdate(s.threads, step.t, Ended(s.threads[step.t].digest, step.outcome));
    } else if step.Acquire? {
      var d := s.reqs[step.r].digest;
      assert (s.threads + [Running(d)])[..|s.threads|] == s.threads;
    }
  }

  lemma GotKeeps(o: Options, e: Entries, d: Digest, now: int)
    ensures var (found, r) := Got(o, e, d, now);
            && r.Keys <= e.Keys && (forall k :: k in r ==> r[k].compiled == e[k].compiled)
            && (found.Some? ==> d in e && found.value == e[d].compiled)
  {}

  /** A lookup never yields a module unused for the idle time, always yields
      one used since, and makes it the most recently used. */
  lemma LookupIsFresh(o: Options, e: Entries, d: Digest, now: int)
    requires !o.noMemory && forall k :: k in e ==> e[k].lastUsed <= now
    ensures var (found, r) := Got(o, e, d, now);
            && (found.Some? <==> d in e && now < e[d].lastUsed + o.ttl)
            && (forall k :: k in r ==> k == d || now < r[k].lastUsed + o.ttl)
            && (found.Some? ==> d in r && forall k :: k in r ==> r[k].lastUsed <= r[d].lastUsed)
            && (forall k :: k in e && k != d && now < e[k].lastUsed + o.ttl ==> k in r && r[k] == e[k])
  {
    hide MayPut;
    var kept := Unexpired(o, e, now);
    assert forall k :: k in kept <==> k in e && now - e[k].lastUsed < o.ttl;
  }

  /** What a step writes was made for its digest, and nothing is unmade. */
  lemma StepWrites(o: Options, s: Sys, step: Step)
    requires ModulesOk(s) && Enabled(o, s, step)
    ensures var t := Apply(o, s, step);
            && s.made <= t.made
            && (forall c: nat :: c < |t.cells| && (c < |s.cells| ==> t.cells[c] != s.cells[c]) ==> CellOk(t.made, t.cells[c]))
            && (forall i: nat :: i < |t.threads| && (i < |s.threads| ==> t.threads[i] != s.threads[i]) ==> ThreadOk(t.made, t.threads[i]))
  {
    hide Got, MayPut, EntriesOk, ResultOk;
  }

  lemma StepResults(o: Options, s: Sys, step: Step)
    requires ModulesOk(s) && Enabled(o, s, step)
    ensures var t := Apply(o, s, step);
            forall r: nat :: r < |t.reqs| && (r < |s.reqs| ==> t.reqs[r] != s.reqs[r]) ==> ResultOk(t.made, t.reqs[r])
  {
    hide Got, MayPut, EntriesOk;
    if step.Lookup? {
      GotKeeps(o, s.entries, s.reqs[step.r].digest, step.now);
      FoundWasMade(s.made, s.entries, s.reqs[step.r].digest);
    }
  }

  lemma FoundWasMade(made: Made, e: Entries, d: Digest)
    requires EntriesOk(made, e)
    ensures d in e ==> (d, e[d].compiled) in made
  {}

  lemma StepKeepsEntries(o: Options, s: Sys, step: Step)
    requires ModulesOk(s) && Enabled(o, s, step)
    ensures EntriesOk(Apply(o, s, step).made, Apply(o, s, step).entries)
  {
    hide Got;
    if step.Lookup? { GotKeeps(o, s.entries, s.reqs[step.r].digest, step.now); }
    if step.Put? { assert ResultOk(s.made, s.reqs[step.r]); }
  }

  lemma StepKeepsModules(o: Options, s: Sys, step: Step)
    requires ModulesOk(s) && Enabled(o, s, step)
    ensures ModulesOk(Apply(o, s, step))
  {
    StepWrites(o, s, step);
    StepResults(o, s, step);
    StepKeepsEntries(o, s, step);
    hide Enabled, Apply, EntriesOk;
  }

  lemma FewerKeys(e: Entries, r: Entries)
    requires r.Keys <= e.Keys
    ensures |r| <= |e|
  {
    assert |r.Keys| <= |e.Keys| by { Subset(r.Keys, e.Keys); }
    assert |r.Keys| == |r| && |e.Keys| == |e|;
  }

  lemma {:induction false} Subset<T>(a: set<T>, b: set<T>)
    requires a <= b
    ensures |a| <= |b|
  {
    if x :| x in a { Subset(a - {x}, b - {x}); }
  }

  lemma AllKept(full: Entries, r: Entries)
    requires r.Keys <= full.Keys && |r| == |full| && forall d :: d in r ==> r[d] == full[d]
    ensures r == full
  {
    assert |r.Keys| == |r| && |full.Keys| == |full|;
    if x :| x in full.Keys && x !in r.Keys { Subset(r.Keys, full.Keys - {x}); }
  }

  /** A put after every earlier use: the new module is kept, nothing is dropped
      while the entries fit, and in a full tier what goes was used no later
      than anything that stays. */
  lemma PutKeepsTheNewest(o: Options, e: Entries, d: Digest, m: Module, now: int, r: Entries)
    requires MayPut(o, e, d, m, now, r) && !o.noMemory && forall k :: k in e ==> e[k].lastUsed < now
    ensures d in r && r[d] == Entry(m, now) && (forall k :: k in r && k != d ==> k in e && r[k] == e[k])
    ensures o.maxEntries == 0 || |e| < o.maxEntries || (d in e && |e| == o.maxEntries) ==> r == e[d := Entry(m, now)]
    ensures o.maxEntries > 0 && |e| >= o.maxEntries ==> |r| == o.maxEntries
    ensures forall k, l :: k in e && k != d && k !in r && l in r && l != d ==> e[k].lastUsed <= e[l].lastUsed
  {
    var full := e[d := Entry(m, now)];
    assert full.Keys == e.Keys + {d};
    assert |full.Keys| == |full| && |e.Keys| == |e| && |full| >= 1;
    assert |full| == if d in e then |e| else |e| + 1 by {
      if d in e { assert full.Keys == e.Keys; }
    }
    if |r| == |full| {
      AllKept(full, r);
    } else {
      assert |r| > 0;
      var k :| k in r;
      assert k in full && (k != d ==> full[k].lastUsed < now);
    }
  }

  lemma StepKeepsSize(o: Options, s: Sys, step: Step)
    requires SizeOk(o, s) && Enabled(o, s, step)
    ensures SizeOk(o, Apply(o, s, step))
  {
    hide Got, InRange;
    if step.Lookup? {
      var (_, r) := Got(o, s.entries, s.reqs[step.r].digest, step.now);
      GotKeeps(o, s.entries, s.reqs[step.r].digest, step.now);
      FewerKeys(s.entries, r);
    }
  }

  lemma StepKeepsInv(o: Options, s: Sys, step: Step)
    requires Inv(o, s) && Enabled(o, s, step)
    ensures Inv(o, Apply(o, s, step))
  {
    hide *;
    InvParts(o, s);
    StepKeepsPhases(o, s, step);
    StepKeepsFlights(o, s, step);
    StepKeepsLoaders(o, s, step);
    StepKeepsPermits(o, s, step);
    StepKeepsModules(o, s, step);
    StepKeepsSize(o, s, step);
    InvParts(o, Apply(o, s, step));
  }

  lemma InvParts(o: Options, s: Sys)
    ensures Inv(o, s) <==>
            PhasesOk(s) && FlightsOk(s) && LoadersOk(s) && PermitsOk(o, s) && ModulesOk(s) && SizeOk(o, s)
  {
    hide PhasesOk, FlightsOk, LoadersOk, PermitsOk, ModulesOk, SizeOk;
  }

  lemma InitIsSafe(o: Options)
    ensures Inv(o, Init(o))
  {}

  lemma {:induction false} RunKeepsInv(o: Options, s: Sys, steps: seq<Step>)
    requires Inv(o, s) && Runs(o, s, steps)
    ensures Inv(o, After(o, s, steps))
    decreases |steps|
  {
    hide Inv, Enabled, Apply;
    if steps != [] {
      StepKeepsInv(o, s, steps[0]);
      RunKeepsInv(o, Apply(o, s, steps[0]), steps[1..]);
    }
  }

  ghost predicate OneLoadPerCell(s: Sys) {
    forall q, r :: 0 <= q < r < |s.reqs| && s.reqs[q].Loads() && s.reqs[r].Loads() ==> s.reqs[q].cell != s.reqs[r].cell
  }

  lemma OneLoader(s: Sys)
    requires LoadersOk(s)
    ensures OneLoadPerCell(s)
  {
    forall q, r | 0 <= q < r < |s.reqs| && s.reqs[q].Loads() && s.reqs[r].Loads() ensures s.reqs[q].cell != s.reqs[r].cell {
      assert LoaderOf(s, q) && LoaderOf(s, r);
    }
  }

  /** The threads of `ts` are compiling. */
  ghost predicate Compile(threads: seq<Thread>, ts: set<nat>) {
    forall t :: t in ts ==> t < |threads| && threads[t].Running?
  }

  lemma {:induction false} CountCovers(threads: seq<Thread>, ts: set<nat>)
    requires Compile(threads, ts)
    ensures |ts| <= CountRunning(threads)
  {
    if threads == [] {
      assert ts == {};
    } else {
      var last := |threads| - 1;
      var rest := ts - {last};
      assert ts <= rest + {last};
      CountCovers(threads[..last], rest);
    }
  }

  /** In every state of every run, timed-out and abandoned requests included:
      no more threads compile than the option allows, one where it says zero;
      no two requests load on one cell, every entry holds a module made for
      its digest, and the memory tier keeps to its bound. */
  lemma ReachableCacheIsSafe(o: Options, steps: seq<Step>)
    requires Runs(o, Init(o), steps)
    ensures var s := After(o, Init(o), steps);
            && (forall ts :: Compile(s.threads, ts) ==> |ts| <= if o.maxCompiles > 0 then o.maxCompiles else 1)
            && OneLoadPerCell(s)
            && (forall d :: d in s.entries ==> (d, s.entries[d].compiled) in s.made)
            && (o.maxEntries > 0 ==> |s.entries| <= o.maxEntries)
  {
    hide Runs, After, Init, FlightsOk, CountRunning, Compile;
    InitIsSafe(o);
    RunKeepsInv(o, Init(o), steps);
    var s := After(o, Init(o), steps);
    OneLoader(s);
    forall ts | Compile(s.threads, ts) ensures |ts| <= Permits(o) { CountCovers(s.threads, ts); }
  }

  /** The memory tier changes what it holds for a digest only when a request
      whose load succeeded puts its module there: a failed load leaves no
      entry, and the module it found no other. */
  lemma OnlySuccessIsKept(o: Options, s: Sys, step: Step, d: Digest)
    requires Enabled(o, s, step) && d in Apply(o, s, step).entries
    requires d in s.entries ==> s.entries[d].compiled != Apply(o, s, step).entries[d].compiled
    ensures step.Put? && s.reqs[step.r] == Left(d, Apply(o, s, step).entries[d].compiled)
  {
    hide Got, InRange;
    if step.Lookup? { GotKeeps(o, s.entries, s.reqs[step.r].digest, step.now); }
  }

  /** A load that succeeded serves every request on its cell: each can go on to
      return that module, and puts it in the memory tier on its way. */
  lemma SharedLoadServes(o: Options, s: Sys, r: nat, now: int, kept: Entries)
    requires PhasesOk(s) && r < |s.reqs| && s.reqs[r].Waiting? && s.cells[s.reqs[r].cell].value.Some?
    requires MayPut(o, s.entries, s.reqs[r].digest, s.cells[s.reqs[r].cell].value.value, now, kept)
    ensures var steps := [Reuse(r)] + [Leave(r)] + [Put(r, now, kept)];
            && Runs(o, s, steps)
            && After(o, s, steps).reqs == s.reqs[r := Done(s.reqs[r].digest, s.cells[s.reqs[r].cell].value)]
            && After(o, s, steps).entries == kept
  {
    hide MayPut, Runs, After;
    assert InRange(s, s.reqs[r]);
    var t := Apply(o, s, Reuse(r));
    var u := Apply(o, t, Leave(r));
    assert t.reqs[r] == Settled(s.reqs[r].digest, s.reqs[r].cell, s.cells[s.reqs[r].cell].value);
    OneStep(o, s, Reuse(r));
    Then(o, s, [Reuse(r)], Leave(r));
    Then(o, s, [Reuse(r)] + [Leave(r)], Put(r, now, kept));
  }

  // ---------------------------------------------- single flight, per digest

  /** No two requests load one digest. */
  ghost predicate SingleFlight(s: Sys) {
    forall q, r :: 0 <= q < r < |s.reqs| && s.reqs[q].Loads() && s.reqs[r].Loads() ==> s.reqs[q].digest != s.reqs[r].digest
  }

  /** A cell still to be filled that some request is on. */
  ghost predicate Pending(s: Sys, c: nat) {
    c < |s.cells| && s.cells[c].value.None? && exists r :: 0 <= r < |s.reqs| && s.reqs[r].OnCell() && s.reqs[r].cell == c
  }

  /** Dropping a flight is clean unless the flight that is dropped, which need
      not be the request's own, is pending. */
  ghost predicate Clean(s: Sys, step: Step) {
    step.Leave? && Known(s, step.r) && s.reqs[step.r].digest in s.loading ==> !Pending(s, s.loading[s.reqs[step.r].digest])
  }

  ghost predicate CleanRun(o: Options, s: Sys, steps: seq<Step>)
    requires Runs(o, s, steps)
    decreases |steps|
  {
    steps == [] || (Clean(s, steps[0]) && CleanRun(o, Apply(o, s, steps[0]), steps[1..]))
  }

  /** Every pending cell is the flight registered for its digest. */
  ghost predicate Registered(s: Sys) {
    forall c: nat :: Pending(s, c) ==> s.cells[c].digest in s.loading && s.loading[s.cells[c].digest] == c
  }

  lemma RegisteredIsSingle(s: Sys)
    requires PhasesOk(s) && LoadersOk(s) && Registered(s)
    ensures SingleFlight(s)
  {
    forall q: nat, r: nat | q < r < |s.reqs| && s.reqs[q].Loads() && s.reqs[r].Loads()
      ensures s.reqs[q].digest != s.reqs[r].digest
    {
      LoadingIsEmpty(s, q);
      LoadingIsEmpty(s, r);
      assert Pending(s, s.reqs[q].cell) && Pending(s, s.reqs[r].cell);
      assert LoaderOf(s, q) && LoaderOf(s, r);
    }
  }

  lemma ValueBefore(o: Options, s: Sys, step: Step, c: nat)
    requires LoadersOk(s) && Enabled(o, s, step) && c < |Apply(o, s, step).cells| && Apply(o, s, step).cells[c].value.None?
    ensures c < |s.cells| ==> s.cells[c].value.None?
  {
    hide Got, MayPut, LoadersOk;
    if !step.Begin? && !step.Finish? && s.reqs[step.r].Loads() { LoadingIsEmpty(s, step.r); }
  }

  lemma OnCellBefore(o: Options, s: Sys, step: Step, r: nat)
    requires FlightsOk(s) && Enabled(o, s, step) && r < |Apply(o, s, step).reqs| && Apply(o, s, step).reqs[r].OnCell()
    ensures var p := Apply(o, s, step).reqs[r];
            || (r < |s.reqs| && s.reqs[r].OnCell() && s.reqs[r].cell == p.cell)
            || (step.Join? && r == step.r && p == Waiting(s.reqs[r].digest, p.cell))
  {
    hide Got, MayPut;
  }

  /** A step makes a cell pending only where a request joins it. */
  lemma PendingBefore(o: Options, s: Sys, step: Step, c: nat)
    requires PhasesOk(s) && FlightsOk(s) && LoadersOk(s) && Enabled(o, s, step) && Pending(Apply(o, s, step), c)
    ensures Pending(s, c) || (step.Join? && Apply(o, s, step).reqs[step.r] == Waiting(s.reqs[step.r].digest, c))
  {
    hide Apply, Enabled, FlightsOk, LoadersOk;
    var t := Apply(o, s, step);
    var r :| 0 <= r < |t.reqs| && t.reqs[r].OnCell() && t.reqs[r].cell == c;
    ValueBefore(o, s, step, c);
    OnCellBefore(o, s, step, r);
    if r < |s.reqs| && s.reqs[r].OnCell() { assert InRange(s, s.reqs[r]); }
  }

  lemma FlightsChange(o: Options, s: Sys, step: Step, d: Digest)
    requires Enabled(o, s, step) && d in s.loading
    ensures var t := Apply(o, s, step);
            (d in t.loading && t.loading[d] == s.loading[d]) || (step.Leave? && s.reqs[step.r].digest == d)
  {
    hide Got, MayPut;
  }

  lemma CleanStepKeepsRegistered(o: Options, s: Sys, step: Step)
    requires PhasesOk(s) && FlightsOk(s) && LoadersOk(s) && Registered(s) && Enabled(o, s, step) && Clean(s, step)
    ensures Registered(Apply(o, s, step))
  {
    var t := Apply(o, s, step);
    StepGrows(o, s, step);
    StepKeepsPhases(o, s, step);
    StepKeepsFlights(o, s, step);
    forall c: nat | Pending(t, c) ensures t.cells[c].digest in t.loading && t.loading[t.cells[c].digest] == c {
      PendingBefore(o, s, step, c);
      if Pending(s, c) {
        FlightsChange(o, s, step, s.cells[c].digest);
      } else {
        JoinedIsRegistered(o, s, step);
        assert InRange(t, t.reqs[step.r]);
      }
    }
  }

  lemma JoinedIsRegistered(o: Options, s: Sys, step: Step)
    requires Enabled(o, s, step) && step.Join? && FlightsOk(s)
    ensures var t := Apply(o, s, step);
            var d := s.reqs[step.r].digest;
            t.reqs[step.r].Waiting? && t.reqs[step.r].digest == d && d in t.loading && t.loading[d] == t.reqs[step.r].cell
  {}

  /** In a run whose every flight is dropped cleanly, loads are single-flight
      per digest. */
  lemma {:induction false} CleanRunIsSingleFlight(o: Options, s: Sys, steps: seq<Step>)
    requires Inv(o, s) && Registered(s) && Runs(o, s, steps) && CleanRun(o, s, steps)
    ensures SingleFlight(After(o, s, steps)) && Registered(After(o, s, steps))
    decreases |steps|
  {
    hide Enabled, Apply, Registered, SingleFlight, PhasesOk, FlightsOk, LoadersOk, PermitsOk, ModulesOk, SizeOk, Clean;
    if steps == [] {
      RegisteredIsSingle(s);
    } else {
      CleanStepKeepsRegistered(o, s, steps[0]);
      StepKeepsInv(o, s, steps[0]);
      CleanRunIsSingleFlight(o, Apply(o, s, steps[0]), steps[1..]);
    }
  }

  // ------------------------------------------------- the condition is exact

  /** The steps that bring one more request for `d` to a flight. */
  function Arrive(s: Sys, d: Digest, now: int): seq<Step> {
    [Begin(d), Lookup(|s.reqs|, now), Join(|s.reqs|)]
  }

  function Arrived(s: Sys, d: Digest, entries: Entries): Sys {
    if d in s.loading then s.(reqs := s.reqs + [Waiting(d, s.loading[d])], entries := entries)
    else
      s.(reqs := s.reqs + [Waiting(d, |s.cells|)], entries := entries,
      loading := s.loading[d := |s.cells|], cells := s.cells + [Cell(d, None, None)])
  }

  lemma Missing(o: Options, s: Sys, d: Digest, now: int)
    requires Got(o, s.entries, d, now).0.None?
    ensures Runs(o, s, [Begin(d), Lookup(|s.reqs|, now)])
    ensures After(o, s, [Begin(d), Lookup(|s.reqs|, now)])
            == s.(reqs := s.reqs + [Missed(d)], entries := Got(o, s.entries, d, now).1)
  {
    hide Got;
    var a, b := Begin(d), Lookup(|s.reqs|, now);
    var s1 := Apply(o, s, a);
    assert Enabled(o, s1, b);
    var s2 := Apply(o, s1, b);
    assert s2.reqs == s.reqs + [Missed(d)];
    assert [a, b][1..] == [b] && [b][1..] == [];
    assert Runs(o, s2, []) && After(o, s2, []) == s2;
    assert Runs(o, s1, [b]) && After(o, s1, [b]) == s2;
  }

  lemma OneStep(o: Options, s: Sys, step: Step)
    requires Enabled(o, s, step)
    ensures Runs(o, s, [step]) && After(o, s, [step]) == Apply(o, s, step)
  {
    hide Enabled, Apply;
    var t := Apply(o, s, step);
    assert [step][1..] == [] && Runs(o, t, []) && After(o, t, []) == t;
  }

  lemma {:induction false} RunsAppend(o: Options, s: Sys, a: seq<Step>, b: seq<Step>)
    requires Runs(o, s, a) && Runs(o, After(o, s, a), b)
    ensures Runs(o, s, a + b) && After(o, s, a + b) == After(o, After(o, s, a), b)
    decreases |a|
  {
    hide Enabled, Apply;
    if a == [] {
      assert a + b == b;
    } else {
      assert (a + b)[1..] == a[1..] + b;
      RunsAppend(o, Apply(o, s, a[0]), a[1..], b);
    }
  }

  lemma JoinIs(o: Options, s: Sys, m: Sys, d: Digest)
    requires m == s.(reqs := s.reqs + [Missed(d)], entries := m.entries)
    ensures Enabled(o, m, Join(|s.reqs|)) && Apply(o, m, Join(|s.reqs|)) == Arrived(s, d, m.entries)
  {
    assert m.reqs[|s.reqs| := Waiting(d, 0)] == s.reqs + [Waiting(d, 0)];
    assert forall c :: m.reqs[|s.reqs| := Waiting(d, c)] == s.reqs + [Waiting(d, c)];
  }

  lemma ArriveIs(o: Options, s: Sys, d: Digest, now: int)
    requires Got(o, s.entries, d, now).0.None?
    ensures Runs(o, s, Arrive(s, d, now))
    ensures After(o, s, Arrive(s, d, now)) == Arrived(s, d, Got(o, s.entries, d, now).1)
  {
    hide *;
    Missing(o, s, d, now);
    var m := s.(reqs := s.reqs + [Missed(d)], entries := Got(o, s.entries, d, now).1);
    JoinIs(o, s, m, d);
    OneStep(o, m, Join(|s.reqs|));
    RunsAppend(o, s, [Begin(d), Lookup(|s.reqs|, now)], [Join(|s.reqs|)]);
    ArriveParts(s, d, now);
  }

  lemma ArriveParts(s: Sys, d: Digest, now: int)
    ensures Arrive(s, d, now) == [Begin(d), Lookup(|s.reqs|, now)] + [Join(|s.reqs|)]
  {}

  function Enter(s: Sys, d: Digest, now: int): seq<Step> {
    Arrive(s, d, now) + [Claim(|s.reqs|)]
  }

  /** When the memory tier has no unexpired entry for a digest and no flight
      is registered for it, a new request starts a load of its own. */
  lemma EnterLoads(o: Options, s: Sys, d: Digest, now: int)
    requires d !in s.loading && Got(o, s.entries, d, now).0.None?
    ensures Runs(o, s, Enter(s, d, now))
    ensures After(o, s, Enter(s, d, now)).reqs == s.reqs + [OnDisk(d, |s.cells|)]
  {
    hide Got, Runs, After, Arrive;
    ArriveIs(o, s, d, now);
    var t := After(o, s, Arrive(s, d, now));
    assert t == Arrived(s, d, t.entries) && Enabled(o, t, Claim(|s.reqs|));
    OneStep(o, t, Claim(|s.reqs|));
    RunsAppend(o, s, Arrive(s, d, now), [Claim(|s.reqs|)]);
  }

  lemma ExpiredLater(o: Options, e: Entries, d: Digest) returns (now: int)
    ensures Got(o, e, d, now).0.None?
  {
    now := if d in e then e[d].lastUsed + o.ttl else 0;
  }

  /** And only in such a run: once a pending flight is dropped, some
      continuation loads its digest twice at the same time. */
  lemma UncleanBreaksSingleFlight(o: Options, s: Sys, step: Step) returns (steps: seq<Step>)
    requires Inv(o, s) && Enabled(o, s, step) && !Clean(s, step)
    ensures Runs(o, Apply(o, s, step), steps) && !SingleFlight(After(o, Apply(o, s, step), steps))
  {
    var t := Apply(o, s, step);
    var d, c := s.reqs[step.r].digest, s.loading[s.reqs[step.r].digest];
    var w :| 0 <= w < |s.reqs| && s.reqs[w].OnCell() && s.reqs[w].cell == c;
    StepKeepsInv(o, s, step);
    assert t.reqs[w] == s.reqs[w] && InRange(t, t.reqs[w]) && t.reqs[w].digest == d && d !in t.loading;
    steps := BreakFrom(o, t, d, w);
  }

  lemma BreakFrom(o: Options, t: Sys, d: Digest, w: nat) returns (steps: seq<Step>)
    requires Inv(o, t) && w < |t.reqs| && t.reqs[w].OnCell() && t.reqs[w].digest == d && d !in t.loading
    requires t.reqs[w].cell < |t.cells| && t.cells[t.reqs[w].cell].value.None?
    ensures Runs(o, t, steps) && !SingleFlight(After(o, t, steps))
  {
    var c := t.reqs[w].cell;
    var now := ExpiredLater(o, t.entries, d);
    assert InRange(t, t.reqs[w]) && LoadedBy(t, c);
    if t.cells[c].loader.Some? {
      var l := t.cells[c].loader.value;
      assert InRange(t, t.reqs[l]);
      steps := Enter(t, d, now);
      EnterLoads(o, t, d, now);
      TwoLoads(After(o, t, steps), l, |t.reqs|, d);
    } else {
      LoadingHasLoader(t, w);
      var u := Apply(o, t, Claim(w));
      steps := [Claim(w)] + Enter(u, d, now);
      EnterLoads(o, u, d, now);
      assert steps[1..] == Enter(u, d, now);
      TwoLoads(After(o, t, steps), w, |t.reqs|, d);
    }
  }

  lemma LoadingHasLoader(t: Sys, w: nat)
    requires LoadersOk(t) && w < |t.reqs| && t.reqs[w].OnCell() && t.reqs[w].cell < |t.cells| && t.cells[t.reqs[w].cell].loader.None?
    ensures t.reqs[w].Waiting?
  {
    assert LoaderOf(t, w);
  }

  lemma TwoLoads(s: Sys, q: nat, r: nat, d: Digest)
    requires q < r < |s.reqs| && s.reqs[q].Loads() && s.reqs[r].Loads() && s.reqs[q].digest == d == s.reqs[r].digest
    ensures !SingleFlight(s)
  {}

  /** Two requests share a flight and the first one's compile has failed: it is
      about to drop the flight from under the second. */
  function FirstFailed(o: Options, d: Digest): Sys {
    Sys(map[], map[d := 0], [Cell(d, None, None)], [Phase.Settled(d, 0, None), Waiting(d, 0)], [Ended(d, None)], Permits(o), {})
  }

  lemma TwoArrivals(o: Options, d: Digest) returns (steps: seq<Step>)
    ensures Runs(o, Init(o), steps)
    ensures After(o, Init(o), steps) == Init(o).(reqs := [Waiting(d, 0), Waiting(d, 0)], loading := map[d := 0], cells := [Cell(d, None, None)])
  {
    hide Runs, After, Arrive, Enabled, Apply;
    var s := Init(o);
    ArriveIs(o, s, d, 0);
    var t := After(o, s, Arrive(s, d, 0));
    ArriveIs(o, t, d, 0);
    RunsAppend(o, s, Arrive(s, d, 0), Arrive(t, d, 0));
    steps := Arrive(s, d, 0) + Arrive(t, d, 0);
  }

  const FAILING: seq<Step> := [Claim(0)] + [DiskMiss(0)] + [Acquire(0)] + [Finish(0, None)] + [Collect(0)]

  lemma FirstFails(o: Options, d: Digest, s: Sys)
    requires s == Init(o).(reqs := [Waiting(d, 0), Waiting(d, 0)], loading := map[d := 0], cells := [Cell(d, None, None)])
    ensures Runs(o, s, FAILING) && After(o, s, FAILING) == FirstFailed(o, d)
  {
    var s1 := s.(reqs := [OnDisk(d, 0), Waiting(d, 0)], cells := [Cell(d, Some(0), None)]);
    var s2 := s1.(reqs := [WantsPermit(d, 0), Waiting(d, 0)]);
    var s3 := s2.(reqs := [Compiling(d, 0, 0), Waiting(d, 0)], threads := [Running(d)], available := s.available - 1);
    var s4 := s3.(threads := [Ended(d, None)], available := s.available);
    FailingStarts(o, d, s, s1, s2);
    FailingEnds(o, d, s2, s3, s4);
    hide *;
    OneStep(o, s, Claim(0));
    Then(o, s, [Claim(0)], DiskMiss(0));
    Then(o, s, [Claim(0)] + [DiskMiss(0)], Acquire(0));
    Then(o, s, [Claim(0)] + [DiskMiss(0)] + [Acquire(0)], Finish(0, None));
    Then(o, s, [Claim(0)] + [DiskMiss(0)] + [Acquire(0)] + [Finish(0, None)], Collect(0));
    FailingIs();
  }

  lemma FailingIs()
    ensures FAILING == [Claim(0)] + [DiskMiss(0)] + [Acquire(0)] + [Finish(0, None)] + [Collect(0)]
  {}

  lemma FailingStarts(o: Options, d: Digest, s: Sys, s1: Sys, s2: Sys)
    requires s == Init(o).(reqs := [Waiting(d, 0), Waiting(d, 0)], loading := map[d := 0], cells := [Cell(d, None, None)])
    requires s1 == s.(reqs := [OnDisk(d, 0), Waiting(d, 0)], cells := [Cell(d, Some(0), None)])
    requires s2 == s1.(reqs := [WantsPermit(d, 0), Waiting(d, 0)])
    ensures Enabled(o, s, Claim(0)) && Apply(o, s, Claim(0)) == s1
    ensures Enabled(o, s1, DiskMiss(0)) && Apply(o, s1, DiskMiss(0)) == s2
  {
    hide Permits;
  }

  lemma FailingEnds(o: Options, d: Digest, s2: Sys, s3: Sys, s4: Sys)
    requires s2 == Sys(map[], map[d := 0], [Cell(d, Some(0), None)], [WantsPermit(d, 0), Waiting(d, 0)], [], Permits(o), {})
    requires s3 == s2.(reqs := [Compiling(d, 0, 0), Waiting(d, 0)], threads := [Running(d)], available := Permits(o) - 1)
    requires s4 == s3.(threads := [Ended(d, None)], available := Permits(o))
    ensures Enabled(o, s2, Acquire(0)) && Apply(o, s2, Acquire(0)) == s3
    ensures Enabled(o, s3, Finish(0, None)) && Apply(o, s3, Finish(0, None)) == s4
    ensures Enabled(o, s4, Collect(0)) && Apply(o, s4, Collect(0)) == FirstFailed(o, d)
  {
    hide Permits;
    SomePermit(o);
  }

  lemma Then(o: Options, s: Sys, steps: seq<Step>, step: Step)
    requires Runs(o, s, steps) && Enabled(o, After(o, s, steps), step)
    ensures Runs(o, s, steps + [step]) && After(o, s, steps + [step]) == Apply(o, After(o, s, steps), step)
  {
    hide *;
    OneStep(o, After(o, s, steps), step);
    RunsAppend(o, s, steps, [step]);
  }

  lemma SomePermit(o: Options)
    ensures Permits(o) > 0
  {}

  lemma FailedIsUnclean(o: Options, d: Digest)
    ensures Enabled(o, FirstFailed(o, d), Leave(0)) && !Clean(FirstFailed(o, d), Leave(0))
  {
    var s := FirstFailed(o, d);
    assert s.reqs[1].OnCell() && s.reqs[1].cell == 0;
    assert Pending(s, 0);
  }

  /** So loads are not single-flight per digest, whatever the options: this
      run reaches two at once. */
  lemma SingleFlightFails(o: Options, d: Digest) returns (steps: seq<Step>)
    ensures Runs(o, Init(o), steps) && !SingleFlight(After(o, Init(o), steps))
  {
    hide *;
    var arrivals := TwoArrivals(o, d);
    var s := After(o, Init(o), arrivals);
    FirstFails(o, d, s);
    FailedIsUnclean(o, d);
    var before := arrivals + FAILING;
    RunsAppend(o, Init(o), arrivals, FAILING);
    InitIsSafe(o);
    RunKeepsInv(o, Init(o), before);
    var more := UncleanBreaksSingleFlight(o, FirstFailed(o, d), Leave(0));
    OneStep(o, FirstFailed(o, d), Leave(0));
    RunsAppend(o, FirstFailed(o, d), [Leave(0)], more);
    RunsAppend(o, Init(o), before, [Leave(0)] + more);
    steps := before + ([Leave(0)] + more);
  }

  // ------------------------------------------------ every permit can be used

  /** A request that nothing stored answers, up to its compile. */
  function Compiles(s: Sys, d: Digest): seq<Step> {
    Arrive(s, d, 0) + [Claim(|s.reqs|)] + [DiskMiss(|s.reqs|)] + [Acquire(|s.reqs|)]
  }

  lemma CompileStarts(o: Options, s: Sys, d: Digest)
    requires s.entries == map[] && d !in s.loading && s.available > 0
    ensures Runs(o, s, Compiles(s, d))
    ensures var t := After(o, s, Compiles(s, d));
            && t.entries == map[] && t.loading == s.loading[d := |s.cells|]
            && t.threads == s.threads + [Running(d)] && t.available == s.available - 1
  {
    var r, c := |s.reqs|, |s.cells|;
    assert Got(o, s.entries, d, 0) == (None, map[]);
    ArriveIs(o, s, d, 0);
    var t0 := Arrived(s, d, map[]);
    var t1 := Apply(o, t0, Claim(r));
    var t2 := Apply(o, t1, DiskMiss(r));
    var t := Apply(o, t2, Acquire(r));
    assert t.threads == s.threads + [Running(d)] && t.loading == s.loading[d := c];
    hide *;
    CompilesIs(s, d);
    var steps := Arrive(s, d, 0);
    Then(o, s, steps, Claim(r));
    Then(o, s, steps + [Claim(r)], DiskMiss(r));
    Then(o, s, steps + [Claim(r)] + [DiskMiss(r)], Acquire(r));
  }

  lemma CompilesIs(s: Sys, d: Digest)
    ensures Compiles(s, d) == Arrive(s, d, 0) + [Claim(|s.reqs|)] + [DiskMiss(|s.reqs|)] + [Acquire(|s.reqs|)]
  {}

  function Named(n: nat): Digest {
    seq(n, _ => 'x')
  }

  lemma {:induction false} Busy(o: Options, n: nat) returns (steps: seq<Step>)
    requires n <= if o.maxCompiles > 0 then o.maxCompiles else 1
    ensures Runs(o, Init(o), steps)
    ensures var s := After(o, Init(o), steps);
            && s.entries == map[] && (forall d :: d in s.loading ==> |d| < n)
            && |s.threads| == n && (forall t :: 0 <= t < n ==> s.threads[t].Running?)
            && s.available == Permits(o) - n
  {
    hide Runs, After, Compiles;
    steps := [];
    if n == 0 {
      Nothing(o, Init(o));
    } else {
      var before := Busy(o, n - 1);
      var s := After(o, Init(o), before);
      assert |Named(n - 1)| == n - 1;
      CompileStarts(o, s, Named(n - 1));
      RunsAppend(o, Init(o), before, Compiles(s, Named(n - 1)));
      steps := before + Compiles(s, Named(n - 1));
    }
  }

  lemma Nothing(o: Options, s: Sys)
    ensures Runs(o, s, []) && After(o, s, []) == s
  {}

  /** The bound is met: as many threads as the option allows, and one where it
      says zero, compile at the same time in some run. */
  lemma EveryPermitIsUsed(o: Options) returns (steps: seq<Step>)
    ensures Runs(o, Init(o), steps)
    ensures var s := After(o, Init(o), steps);
            && |s.threads| == (if o.maxCompiles > 0 then o.maxCompiles else 1)
            && (forall t :: 0 <= t < |s.threads| ==> s.threads[t].Running?)
  {
    hide Runs, After;
    steps := Busy(o, if o.maxCompiles > 0 then o.maxCompiles else 1);
  }
}
