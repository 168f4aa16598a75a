/** The egress rate limit: a token bucket per module digest, with a sweep of
    idle buckets (crates/function/src/egress.rs). Instants are seconds, and
    both they and the tokens are real numbers. */
module Bucket {

  const IDLE: real := 600.0

  datatype Limits = Limits(perMinute: real, burst: int)

  datatype Tokens = Tokens(tokens: real, last: real)

  type Digest = string
  type Entries = map<Digest, Tokens>

  /** What `Egress::new` lets through: a limiter only for a positive rate, and
      a burst below one replaced by the derived one. */
  predicate Good(l: Limits) {
    l.perMinute > 0.0 && l.burst >= 1
  }

  /** The burst `Egress::new` settles on. */
  function BurstFor(perMinute: real, burst: int): int {
    if burst <= 0 then (if perMinute < 1.0 then 1.0 else perMinute).Floor else burst
  }

  function Rate(l: Limits): real {
    l.perMinute / 60.0
  }

  function Min(x: real, y: real): real {
    if x <= y then x else y
  }

  /** What a bucket refills by in that many seconds. */
  function Gain(l: Limits, seconds: real): real {
    seconds * Rate(l)
  }

  /** What a digest has at `now`; one without a bucket has a full one. */
  function Available(l: Limits, e: Entries, d: Digest, now: real): real {
    if d in e then Min(e[d].tokens + Gain(l, now - e[d].last), l.burst as real) else l.burst as real
  }

  /** Every bucket holds between nothing and the burst, and was last touched
      in the past. */
  predicate Settled(l: Limits, e: Entries, now: real) {
    forall d :: d in e ==> 0.0 <= e[d].tokens <= l.burst as real && e[d].last <= now
  }

  function Asked(l: Limits, e: Entries, d: Digest, now: real): Entries {
    var have := Available(l, e, d, now);
    e[d := Tokens(if have >= 1.0 then have - 1.0 else have, now)]
  }

  function Swept(e: Entries, now: real): Entries {
    map d | d in e && e[d].last >= now - IDLE :: e[d]
  }

  /** A sweep drops exactly the buckets unused for more than ten minutes. */
  lemma SweptExactly(e: Entries, now: real, d: Digest)
    ensures d in Swept(e, now) <==> d in e && now - e[d].last <= 600.0
    ensures d in Swept(e, now) ==> Swept(e, now)[d] == e[d]
  {}

  class RateLimiters {
    const limits: Limits
    var entries: Entries

    constructor (limits: Limits)
      ensures this.limits == limits && entries == map[]
    {
      this.limits := limits;
      entries := map[];
    }

    method Allow(digest: Digest, now: real) returns (ok: bool)
      requires Settled(limits, entries, now)
      modifies this
      ensures ok <==> Available(limits, old(entries), digest, now) >= 1.0
      ensures entries == Asked(limits, old(entries), digest, now)
    {
      var bucket := if digest in entries then entries[digest] else Tokens(limits.burst as real, now);
      var ratePerSec := limits.perMinute / 60.0;
      var tokens := Min(bucket.tokens + (now - bucket.last) * ratePerSec, limits.burst as real);
      NothingSince(limits, now);
      if tokens >= 1.0 {
        entries := entries[digest := Tokens(tokens - 1.0, now)];
        return true;
      }
      entries := entries[digest := Tokens(tokens, now)];
      return false;
    }

    method Sweep(now: real)
      modifies this
      ensures entries == Swept(old(entries), now)
    {
      var cutoff := now - IDLE;
      entries := map d | d in entries && entries[d].last >= cutoff :: entries[d];
    }
  }

  lemma NothingSince(l: Limits, now: real)
    ensures Min(l.burst as real + (now - now) * Rate(l), l.burst as real) == l.burst as real
  {}

  // ------------------------------------------------------------------- runs

  datatype Event = Ask(digest: Digest, time: real) | Sweep(time: real)

  function After(l: Limits, e: Entries, event: Event): Entries {
    match event
    case Ask(d, t) => Asked(l, e, d, t)
    case Sweep(t) => Swept(e, t)
  }

  function Run(l: Limits, e: Entries, events: seq<Event>): Entries
    decreases |events|
  {
    if events == [] then e else Run(l, After(l, e, events[0]), events[1..])
  }

  /** The answers to the requests of a run, in order. */
  function Answers(l: Limits, e: Entries, events: seq<Event>): seq<bool>
    decreases |events|
  {
    if events == [] then []
    else
      (match events[0]
       case Ask(d, t) => [Available(l, e, d, t) >= 1.0]
       case Sweep(_) => []) + Answers(l, After(l, e, events[0]), events[1..])
  }

  /** How many requests of one digest a run lets through. */
  function Allowed(l: Limits, e: Entries, events: seq<Event>, d: Digest): nat
    decreases |events|
  {
    if events == [] then 0
    else
      (if events[0].Ask? && events[0].digest == d && Available(l, e, d, events[0].time) >= 1.0 then 1 else 0)
      + Allowed(l, After(l, e, events[0]), events[1..], d)
  }

  /** A request reads the clock under the lock, a sweep before it takes the
      lock: its time may lag. */
  function Clock(from: real, v: Event): real {
    if v.Ask? || v.time > from then v.time else from
  }

  /** A clock that never goes back, between `from` and `to`. */
  predicate Timely(events: seq<Event>, from: real, to: real) {
    if events == [] then from <= to
    else (events[0].Ask? ==> from <= events[0].time) && Timely(events[1..], Clock(from, events[0]), to)
  }

  predicate NoSweeps(events: seq<Event>) {
    forall v :: v in events ==> v.Ask?
  }

  function WithoutSweeps(events: seq<Event>): (r: seq<Event>)
    ensures NoSweeps(r)
  {
    if events == [] then []
    else if events[0].Ask? then [events[0]] + WithoutSweeps(events[1..])
    else WithoutSweeps(events[1..])
  }

  // ----------------------------------------------------- what a bucket holds

  lemma GainGrows(l: Limits, x: real, y: real)
    requires Good(l) && x <= y
    ensures Gain(l, x) <= Gain(l, y) && Gain(l, y - x) >= 0.0 && Gain(l, 0.0) == 0.0
  {
    assert Rate(l) > 0.0 && (y - x) * Rate(l) >= 0.0;
    assert y * Rate(l) == x * Rate(l) + (y - x) * Rate(l);
  }

  lemma GainAdds(l: Limits, x: real, y: real, z: real)
    ensures Gain(l, z - x) == Gain(l, y - x) + Gain(l, z - y)
  {}

  /** Waiting only refills, at the rate, up to the burst. */
  lemma Waiting(l: Limits, e: Entries, d: Digest, s: real, t: real)
    requires Good(l) && Settled(l, e, s) && s <= t
    ensures 0.0 <= Available(l, e, d, s) <= Available(l, e, d, t) <= l.burst as real
    ensures Available(l, e, d, t) == Min(Available(l, e, d, s) + Gain(l, t - s), l.burst as real)
  {
    hide Gain;
    GainGrows(l, s, t);
    if d in e {
      GainGrows(l, e[d].last, s);
      GainAdds(l, e[d].last, s, t);
    }
  }

  /** In seconds: a bucket gains a sixtieth of the rate per minute each second,
      up to the burst, and a digest that has not asked has all of it. */
  lemma RefillsPerMinute(l: Limits, e: Entries, d: Digest, s: real, t: real)
    requires Good(l) && Settled(l, e, s) && s <= t
    ensures var refilled := Available(l, e, d, s) + (t - s) * (l.perMinute / 60.0);
            Available(l, e, d, t) == if refilled < l.burst as real then refilled else l.burst as real
    ensures d !in e ==> Available(l, e, d, t) == l.burst as real
  {
    Waiting(l, e, d, s, t);
  }

  /** One request takes one token from its digest or nothing, and touches no
      other. */
  lemma AskSpends(l: Limits, e: Entries, d: Digest, now: real)
    requires Good(l) && Settled(l, e, now)
    ensures Settled(l, Asked(l, e, d, now), now)
    ensures Available(l, Asked(l, e, d, now), d, now)
            == Available(l, e, d, now) - (if Available(l, e, d, now) >= 1.0 then 1.0 else 0.0)
    ensures forall k, t :: k != d ==> Available(l, Asked(l, e, d, now), k, t) == Available(l, e, k, t)
  {
    hide Gain;
    Waiting(l, e, d, now, now);
    GainGrows(l, now, now);
    assert now - now == 0.0;
  }

  /** The inductive step of the bound: over any run without sweeps, what was
      let through plus what is left is at most what was there plus the
      refill. */
  lemma {:induction false} Spending(l: Limits, e: Entries, events: seq<Event>, d: Digest, s: real, t: real)
    requires Good(l) && Settled(l, e, s) && Timely(events, s, t) && NoSweeps(events)
    ensures Settled(l, Run(l, e, events), t)
    ensures Allowed(l, e, events, d) as real + Available(l, Run(l, e, events), d, t)
            <= Available(l, e, d, s) + Gain(l, t - s)
    decreases |events|
  {
    if events == [] {
      Waiting(l, e, d, s, t);
    } else {
      hide *;
      var v := events[0];
      Unroll(l, e, events, d, s, t);
      AskSpends(l, e, v.digest, v.time);
      SettledLater(l, e, s, v.time);
      Spending(l, Asked(l, e, v.digest, v.time), events[1..], d, v.time, t);
      Waiting(l, e, d, s, v.time);
      GainAdds(l, s, v.time, t);
      Smaller(Available(l, e, d, s) + Gain(l, v.time - s), l.burst as real);
      Smaller(Available(l, e, d, s) + Gain(l, t - s), l.burst as real);
    }
  }

  lemma Smaller(x: real, y: real)
    ensures Min(x, y) <= x && Min(x, y) <= y
  {}

  lemma SettledLater(l: Limits, e: Entries, s: real, t: real)
    requires Settled(l, e, s) && s <= t
    ensures Settled(l, e, t)
  {}

  lemma Unroll(l: Limits, e: Entries, events: seq<Event>, d: Digest, s: real, t: real)
    requires events != [] && Timely(events, s, t) && NoSweeps(events)
    ensures var v := events[0];
            && v.Ask? && s <= v.time && Timely(events[1..], v.time, t) && NoSweeps(events[1..])
            && Run(l, e, events) == Run(l, Asked(l, e, v.digest, v.time), events[1..])
            && Allowed(l, e, events, d)
               == (if v.digest == d && Available(l, e, d, v.time) >= 1.0 then 1 else 0)
                  + Allowed(l, Asked(l, e, v.digest, v.time), events[1..], d)
  {
    hide Available, Asked;
    assert events[0] in events;
  }

  lemma {:induction false} TimelyRange(events: seq<Event>, from: real, to: real)
    requires Timely(events, from, to)
    ensures from <= to
  {
    if events != [] { TimelyRange(events[1..], Clock(from, events[0]), to); }
  }

  /** Any reachable state is settled, sweeps or not. */
  lemma {:induction false} RunSettles(l: Limits, e: Entries, events: seq<Event>, s: real, t: real)
    requires Good(l) && Settled(l, e, s) && Timely(events, s, t)
    ensures Settled(l, Run(l, e, events), t)
    decreases |events|
  {
    if events != [] {
      var v := events[0];
      if v.Ask? { AskSpends(l, e, v.digest, v.time); }
      RunSettles(l, After(l, e, v), events[1..], Clock(s, v), t);
    }
  }

  /** Whatever came before - other digests, denied requests, sweeps - one
      digest is let through at most burst + rate * (t - s) times in a window
      that no sweep falls in. */
  lemma WindowBound(l: Limits, before: seq<Event>, window: seq<Event>, d: Digest, s: real, t: real)
    requires Good(l) && Timely(before, 0.0, s) && Timely(window, s, t) && NoSweeps(window)
    ensures Allowed(l, Run(l, map[], before), window, d) as real <= l.burst as real + (t - s) * Rate(l)
  {
    hide Gain, Rate, Run, Allowed, Timely, NoSweeps;
    RunSettles(l, map[], before, 0.0, s);
    WindowFrom(l, Run(l, map[], before), window, d, s, t);
  }

  lemma WindowFrom(l: Limits, e: Entries, window: seq<Event>, d: Digest, s: real, t: real)
    requires Good(l) && Settled(l, e, s) && Timely(window, s, t) && NoSweeps(window)
    ensures Allowed(l, e, window, d) as real <= l.burst as real + (t - s) * Rate(l)
  {
    GainIs(l, t - s);
    hide *;
    Spending(l, e, window, d, s, t);
    Waiting(l, e, d, s, s);
    Waiting(l, Run(l, e, window), d, t, t);
  }

  lemma GainIs(l: Limits, x: real)
    ensures Gain(l, x) == x * Rate(l)
  {}

  // ------------------------------------------------------------ idle sweeps

  /** Two states no later request can tell apart. */
  ghost predicate Alike(l: Limits, e: Entries, f: Entries, now: real) {
    forall d, t: real :: now <= t ==> Available(l, e, d, t) == Available(l, f, d, t)
  }

  /** The condition on the flags: ten idle minutes refill a bucket. */
  predicate IdleRefills(l: Limits) {
    l.burst as real <= 10.0 * l.perMinute
  }

  lemma IdleIsFull(l: Limits, b: Tokens, now: real, t: real)
    requires Good(l) && IdleRefills(l) && b.tokens >= 0.0 && b.last < now - IDLE && now <= t
    ensures b.tokens + Gain(l, t - b.last) >= l.burst as real
  {
    GainGrows(l, IDLE, t - b.last);
    assert IDLE * Rate(l) == 10.0 * l.perMinute;
  }

  lemma SweepKeepsAvailable(l: Limits, e: Entries, sweep: real, now: real)
    requires Good(l) && IdleRefills(l) && Settled(l, e, now) && sweep <= now
    ensures Alike(l, e, Swept(e, sweep), now)
  {
    hide Gain;
    forall d, t: real | now <= t ensures Available(l, e, d, t) == Available(l, Swept(e, sweep), d, t) {
      if d in e && e[d].last < sweep - IDLE { IdleIsFull(l, e[d], sweep, t); }
    }
  }

  lemma AskKeepsAlike(l: Limits, e: Entries, f: Entries, d: Digest, now: real)
    requires Alike(l, e, f, now)
    ensures Alike(l, Asked(l, e, d, now), Asked(l, f, d, now), now)
  {
    hide Gain;
    var g, h := Asked(l, e, d, now), Asked(l, f, d, now);
    assert g[d] == h[d];
    forall k, t: real | now <= t ensures Available(l, g, k, t) == Available(l, h, k, t) {
      if k != d {
        assert Available(l, g, k, t) == Available(l, e, k, t) && Available(l, h, k, t) == Available(l, f, k, t);
      }
    }
  }

  lemma {:induction false} AlikeAnswers(l: Limits, e: Entries, f: Entries, events: seq<Event>, s: real, t: real)
    requires Good(l) && IdleRefills(l) && Settled(l, e, s) && Alike(l, e, f, s) && Timely(events, s, t)
    ensures Answers(l, e, events) == Answers(l, f, WithoutSweeps(events))
    ensures forall d :: Allowed(l, e, events, d) == Allowed(l, f, WithoutSweeps(events), d)
    decreases |events|
  {
    if events != [] {
      var v, rest := events[0], events[1..];
      var now := Clock(s, v);
      assert Alike(l, e, f, now);
      if v.Ask? {
        AskSpends(l, e, v.digest, v.time);
        AskKeepsAlike(l, e, f, v.digest, v.time);
        AlikeAnswers(l, Asked(l, e, v.digest, v.time), Asked(l, f, v.digest, v.time), rest, v.time, t);
        assert WithoutSweeps(events)[1..] == WithoutSweeps(rest);
      } else {
        SweepKeepsAvailable(l, e, v.time, now);
        AlikeAnswers(l, Swept(e, v.time), f, rest, now, t);
        assert Answers(l, e, events) == Answers(l, Swept(e, v.time), rest);
      }
    }
  }

  /** When ten idle minutes refill a bucket, no run can tell that there is a
      sweep: every request gets the answer it would get without one. */
  lemma SweepIsUnobservable(l: Limits, events: seq<Event>, t: real)
    requires Good(l) && IdleRefills(l) && Timely(events, 0.0, t)
    ensures Answers(l, map[], events) == Answers(l, map[], WithoutSweeps(events))
  {
    AlikeAnswers(l, map[], map[], events, 0.0, t);
  }

  lemma {:induction false} TimelyWithoutSweeps(events: seq<Event>, s: real, t: real)
    requires Timely(events, s, t)
    ensures Timely(WithoutSweeps(events), s, t)
    decreases |events|
  {
    if events != [] {
      var now := Clock(s, events[0]);
      TimelyWithoutSweeps(events[1..], now, t);
      if !events[0].Ask? { TimelySooner(WithoutSweeps(events[1..]), s, now, t); }
    }
  }

  lemma TimelySooner(events: seq<Event>, s: real, from: real, t: real)
    requires Timely(events, from, t) && s <= from && NoSweeps(events)
    ensures Timely(events, s, t)
  {
    if events != [] { assert events[0] in events; }
  }

  /** So the bound then holds in every window, sweeps included. */
  lemma WindowBoundAcrossSweeps(l: Limits, before: seq<Event>, window: seq<Event>, d: Digest, s: real, t: real)
    requires Good(l) && IdleRefills(l) && Timely(before, 0.0, s) && Timely(window, s, t)
    ensures Allowed(l, Run(l, map[], before), window, d) as real <= l.burst as real + (t - s) * Rate(l)
  {
    hide Gain, Rate, Run, Allowed, Answers, Timely, NoSweeps, Available;
    var e := Run(l, map[], before);
    RunSettles(l, map[], before, 0.0, s);
    AlikeAnswers(l, e, e, window, s, t);
    TimelyWithoutSweeps(window, s, t);
    WindowFrom(l, e, WithoutSweeps(window), d, s, t);
  }

  // ------------------------------------------------- the condition is exact

  function Asks(d: Digest, n: nat, time: real): (r: seq<Event>)
    ensures |r| == n && NoSweeps(r)
  {
    if n == 0 then [] else [Ask(d, time)] + Asks(d, n - 1, time)
  }

  lemma {:induction false} AsksTimely(d: Digest, n: nat, time: real, rest: seq<Event>, to: real)
    requires Timely(rest, time, to)
    ensures Timely(Asks(d, n, time) + rest, time, to)
    decreases n
  {
    if n > 0 {
      AsksTimely(d, n - 1, time, rest, to);
      assert (Asks(d, n, time) + rest)[1..] == Asks(d, n - 1, time) + rest;
    } else {
      assert Asks(d, n, time) + rest == rest;
    }
  }

  /** A bucket with that many tokens serves that many requests at once. */
  lemma {:induction false} AsksServed(l: Limits, e: Entries, d: Digest, n: nat, time: real)
    requires Good(l) && Settled(l, e, time) && Available(l, e, d, time) >= n as real
    ensures Allowed(l, e, Asks(d, n, time), d) == n
    ensures Settled(l, Run(l, e, Asks(d, n, time)), time)
    ensures Available(l, Run(l, e, Asks(d, n, time)), d, time) == Available(l, e, d, time) - n as real
    ensures n > 0 ==> d in Run(l, e, Asks(d, n, time)) && Run(l, e, Asks(d, n, time))[d].last == time
    decreases n
  {
    if n > 0 {
      AskSpends(l, e, d, time);
      var events := Asks(d, n, time);
      assert events[0] == Ask(d, time) && events[1..] == Asks(d, n - 1, time);
      AsksServed(l, Asked(l, e, d, time), d, n - 1, time);
      assert n - 1 == 0 ==> Run(l, Asked(l, e, d, time), []) == Asked(l, e, d, time);
    }
  }

  lemma {:induction false} RunAppend(l: Limits, e: Entries, u: seq<Event>, v: seq<Event>, d: Digest)
    ensures Run(l, e, u + v) == Run(l, Run(l, e, u), v)
    ensures Allowed(l, e, u + v, d) == Allowed(l, e, u, d) + Allowed(l, Run(l, e, u), v, d)
    decreases |u|
  {
    if u == [] {
      assert u + v == v;
    } else {
      assert (u + v)[1..] == u[1..] + v;
      RunAppend(l, After(l, e, u[0]), u[1..], v, d);
    }
  }

  /** Otherwise the bound fails: a burst, a sweep just past ten idle minutes
      and a second burst the bucket had not refilled for. */
  lemma SweepBreaksTheBound(l: Limits, d: Digest) returns (t: real, events: seq<Event>)
    requires Good(l) && !IdleRefills(l)
    ensures Timely(events, 0.0, t)
    ensures Allowed(l, map[], events, d) as real > l.burst as real + (t - 0.0) * Rate(l)
    ensures Answers(l, map[], events) != Answers(l, map[], WithoutSweeps(events))
  {
    var n: nat := l.burst;
    var extra := 30.0 * (n as real - 10.0 * l.perMinute) / l.perMinute;
    t := IDLE + extra;
    ShortOfFull(l, extra, t);
    events := TwoBurstsOf(d, n, t);
    hide *;
    BurstsTimely(d, n, t);
    TwoBursts(l, d, n, t);
    BurstsAreFor(d, n, t);
    Different(l, events, d, t);
  }

  function TwoBurstsOf(d: Digest, n: nat, t: real): seq<Event> {
    Asks(d, n, 0.0) + ([Sweep(t)] + Asks(d, n, t))
  }

  lemma BurstsTimely(d: Digest, n: nat, t: real)
    requires t >= 0.0
    ensures Timely(TwoBurstsOf(d, n, t), 0.0, t)
  {
    var second := Asks(d, n, t);
    assert second + [] == second;
    AsksTimely(d, n, t, [], t);
    assert ([Sweep(t)] + second)[1..] == second;
    AsksTimely(d, n, 0.0, [Sweep(t)] + second, t);
  }

  lemma {:induction false} AsksAreFor(d: Digest, n: nat, time: real)
    ensures forall v :: v in Asks(d, n, time) ==> v.digest == d
  {
    if n > 0 { AsksAreFor(d, n - 1, time); }
  }

  lemma BurstsAreFor(d: Digest, n: nat, t: real)
    ensures forall v :: v in TwoBurstsOf(d, n, t) && v.Ask? ==> v.digest == d
  {
    AsksAreFor(d, n, 0.0);
    AsksAreFor(d, n, t);
  }

  /** With the sweep between them, both bursts are served in full. */
  lemma TwoBursts(l: Limits, d: Digest, n: nat, t: real)
    requires Good(l) && n == l.burst && t > IDLE
    ensures Allowed(l, map[], TwoBurstsOf(d, n, t), d) == 2 * n
  {
    hide Gain, Rate, Asked, Asks;
    var first, second := Asks(d, n, 0.0), Asks(d, n, t);
    AsksServed(l, map[], d, n, 0.0);
    var drained := Run(l, map[], first);
    var swept := Swept(drained, t);
    RunAppend(l, map[], first, [Sweep(t)] + second, d);
    assert ([Sweep(t)] + second)[1..] == second;
    assert Allowed(l, drained, [Sweep(t)] + second, d) == Allowed(l, swept, second, d);
    assert d !in swept && Settled(l, swept, t);
    AsksServed(l, swept, d, n, t);
  }

  lemma ShortOfFull(l: Limits, extra: real, t: real)
    requires Good(l) && !IdleRefills(l) && t == IDLE + extra
    requires extra == 30.0 * (l.burst as real - 10.0 * l.perMinute) / l.perMinute
    ensures extra > 0.0 && (t - 0.0) * Rate(l) < l.burst as real
  {
    var gap := l.burst as real - 10.0 * l.perMinute;
    assert extra * l.perMinute == 30.0 * gap;
    assert extra > 0.0;
    assert extra * Rate(l) == gap / 2.0;
    assert IDLE * Rate(l) == 10.0 * l.perMinute;
    assert t * Rate(l) == IDLE * Rate(l) + extra * Rate(l);
  }

  /** A run whose count breaks the bound answers differently without its
      sweeps, where the bound holds. */
  lemma Different(l: Limits, events: seq<Event>, d: Digest, t: real)
    requires Good(l) && Timely(events, 0.0, t) && forall v :: v in events && v.Ask? ==> v.digest == d
    requires Allowed(l, map[], events, d) as real > l.burst as real + (t - 0.0) * Rate(l)
    ensures Answers(l, map[], events) != Answers(l, map[], WithoutSweeps(events))
  {
    TimelyWithoutSweeps(events, 0.0, t);
    OnlyDigest(events, d);
    WindowBound(l, [], WithoutSweeps(events), d, 0.0, t);
    CountIsAnswers(l, map[], events, d);
    CountIsAnswers(l, map[], WithoutSweeps(events), d);
  }

  lemma {:induction false} OnlyDigest(events: seq<Event>, d: Digest)
    requires forall v :: v in events && v.Ask? ==> v.digest == d
    ensures forall v :: v in WithoutSweeps(events) ==> v.digest == d
  {
    if events != [] { OnlyDigest(events[1..], d); }
  }

  function Yeses(answers: seq<bool>): nat {
    if answers == [] then 0 else (if answers[0] then 1 else 0) + Yeses(answers[1..])
  }

  lemma {:induction false} CountIsAnswers(l: Limits, e: Entries, events: seq<Event>, d: Digest)
    requires forall v :: v in events && v.Ask? ==> v.digest == d
    ensures Allowed(l, e, events, d) == Yeses(Answers(l, e, events))
    decreases |events|
  {
    if events != [] {
      assert events[0] in events;
      CountIsAnswers(l, After(l, e, events[0]), events[1..], d);
      var rest := Answers(l, After(l, e, events[0]), events[1..]);
      assert events[0].Ask? ==> Answers(l, e, events)[1..] == rest;
      assert !events[0].Ask? ==> Answers(l, e, events) == rest;
    }
  }

  /** A burst that is not given is the rate rounded down, at least one, and
      meets the condition from one request in ten minutes up, and only then. */
  lemma DerivedBurst(perMinute: real)
    requires perMinute > 0.0
    ensures Good(Limits(perMinute, BurstFor(perMinute, 0)))
    ensures var r := if perMinute < 1.0 then 1.0 else perMinute; BurstFor(perMinute, 0) as real <= r < BurstFor(perMinute, 0) as real + 1.0
    ensures forall burst :: burst > 0 ==> BurstFor(perMinute, burst) == burst
    ensures forall burst :: burst <= 0 ==> BurstFor(perMinute, burst) == BurstFor(perMinute, 0)
    ensures IdleRefills(Limits(perMinute, BurstFor(perMinute, 0))) <==> perMinute >= 0.1
  {}
}
