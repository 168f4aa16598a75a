# Verified model of the function runtime's governance and byte algorithms

A Dafny model of the parts of a WebAssembly function runtime that decide who
may run, what a run may use and which bytes cross its boundary, with proofs
over every input, every run and every reachable state. `dafny verify
dfyconfig.toml` checks the whole of it.

| module | models |
|---|---|
| `Scheduler` | fair run slots: round-robin by key, grants that race deadlines |
| `Pool` | the memory pool shared by all runs and the per-run limiter |
| `StepSlots` | the per-step bound and its idle sweep |
| `Epoch` | the deadline callback that credits HTTP time back to a run |
| `Wire` | the protobuf edits on requests and responses |
| `EgressRules` | HTTP rules: shape, coverage, compilation, admission |
| `Dial` | dialAddress rules compiled to a prefix table, and the dial decision |
| `Bucket` | the egress rate limit and its sweep |
| `Decimal`, `Duration`, `Quantity` | decimal text, durations, Kubernetes quantities |
| `Location` | repository segments and path cleaning |
| `Pae` | the DSSE pre-authentication encoding |
| `Compose` | the changes a response makes and the fence over them |
| `Cache` | the module cache: flights, permits, memory tier |
| `Order`, `Base` | ordered text, options, results |

Objects whose methods update fields are classes, with one method per critical
section, each specified by a function of the old state. A protocol is a `Sys`
value and a `Step` type: the steps are those same critical sections, with the
channels, guards, timers and threads around them, taken in any order. Theorems
about runs quantify over every sequence of enabled steps. Index loops over
bytes and text are methods with loops, proved equal to a function whose
properties are lemmas.

Clocks, fetched bytes, compile outcomes, UTF-8 validity and Cedar decisions are
parameters or steps with any outcome.

## Where code and documentation part

The model follows the code. These statements about it do not hold as written;
each has a concrete failure and the exact condition under which it does hold.

- Loads are called single-flight per digest (crates/function/src/cache.rs:6-8,
  docs/one-pager-cache.md:136-137). They are per cell. A request drops the
  flight registered under its digest, which may be another request's or one
  that still has waiters: `Cache.SingleFlightFails`. Per digest it holds in
  runs whose dropped flights have nobody pending on them, and any other drop
  has a continuation with two loads at once.
- A no-op response to request bytes that do not parse is said to be the bare
  meta (crates/function/src/protowire.rs:97-98). Fields before the break still
  cross: `Wire.BrokenRequestStillCrosses`, `Wire.NoopIsBareMeta`.
- Bytes that do not parse are called impossible after the typed decode
  (crates/function/src/protowire.rs:31-34, 97-98). A protobuf decoder skips an
  unknown group, which is no value here: `Wire.UnknownGroupDecodes`. Bytes a
  decoder that skips groups reads do parse exactly when no field of theirs is
  a group, `Wire.GroupsDoNotParse`.
- Exact hosts are compared for coverage with trailing dots dropped but without
  the trim that admission does (crates/function/src/manifest.rs:682-688), so
  `covered` holds of `"a\r"` against `"a\r."` although a grant of the second
  refuses the first: `EgressRules.CoverageFailsExactly`,
  `EgressRules.CarriageReturnBreaksCoverage`. This is a failure of `covered` as
  a function: the runtime grants an admitted module its own rule list, so no
  request shows it.
- The compiled dialAddress table is said not to mean less than the operator
  wrote (crates/function/src/authz.rs:697-699, 738-740,
  crates/function/src/main.rs:213-215). Two things do. A rule scoped by a bare
  `action`, or by `action in Action::"dialAddress"`, covers the dial and yields
  nothing without an error: `Dial.SkippedForbidRefusesNothing`. A rule compiles
  to less than it means exactly when it is skipped so and applies, and a
  decision differs exactly where such a rule would have changed it:
  `Dial.RuleExact`, `Dial.DecisionExact`. And a range contains no address as it
  is judged exactly when it lies within the IPv4-mapped form:
  `Dial.MappedRangesAreInert`.
- A run's wall clock is said to stretch to about twice its budget at most
  (docs/one-pager-resource-governance.md:54-58). A run lasts its own ticks, the
  ticks credited back and its lateness, the time the guest stays in the host
  past its deadlines, `Epoch.RunLastsGivenAndLateness`. So the bound holds
  exactly when the counted HTTP time and the lateness fit beside its own ticks,
  `Epoch.TwiceTheBudgetExactly`. Three things break it: sends that overlap,
  `Epoch.OverlappingSendsExceedTwice`; sends held open by a slow request body,
  whose collection is counted and not bounded, `Epoch.SlowBodiesExceedTwice`;
  and a guest that waits in the host across its deadline,
  `Epoch.LateFiringExceedsTwice`.
- The step bound holds exactly while no sweep unlinks an entry that an acquire
  waits on, `StepSlots.StepBoundHolds` and `StepSlots.UncleanBreaksTheBound`;
  acquires that settle within ten minutes of their stamp are enough. A later
  one breaks it: `StepSlots.LateAcquireOverruns`.
- The egress rate bound survives the ten-minute sweep exactly when the burst
  is at most ten minutes' refill: `Bucket.SweepBreaksTheBound`. The derived
  burst meets that from a tenth of a request a minute up.
- The fraction products of `quantity::parse` and `duration::parse` are
  unchecked in 128 bits. Every text a parser accepts is a quantity, or a
  sequence of numbers with units; up to 38 fraction digits the result is the
  true value if and only if no product wraps, unless even the wrapped value is
  too long for it. Twenty and twenty-five fraction digits never wrap.
  `Quantity.LongFractionWraps` and `Duration.LongFractionMisread` are texts
  that do.

## Model

| member | source | states |
|---|---|---|
| Scheduler.FairScheduler.constructor | crates/engine-api/src/concurrency.rs:51-60 | a new scheduler has every slot free and nobody waiting |
| Scheduler.FairScheduler.Enter | crates/engine-api/src/concurrency.rs:65-85 | a slot at once when one is free, otherwise the last place in the key's queue, the key joining the rotation if it was not in it |
| Scheduler.FairScheduler.Wake | crates/engine-api/src/concurrency.rs:106-128 | the loop hands one slot to the head of the next key with a waiter, passing over stale keys, and nobody when there is none |
| Scheduler.FairScheduler.Remove | crates/engine-api/src/concurrency.rs:130-138 | a waiter leaves its queue, and a key with no waiter left leaves the rotation |
| Scheduler.FairScheduler.Release | crates/engine-api/src/concurrency.rs:42-48 | a returned slot goes straight to the next waiter |
| Scheduler.FairScheduler.Reconcile | crates/engine-api/src/concurrency.rs:86-98 | a deadline that lost to a grant passes the slot on; one that won withdraws the waiter |
| Scheduler.WakeFront | crates/engine-api/src/concurrency.rs:106-128 | in a well-shaped state the head of the first key is served and the key rotates behind the others |
| Scheduler.StepKeepsInv | crates/engine-api/src/concurrency.rs:42-138 | every atomic step, including a grant racing a deadline, keeps: active = holders + undelivered grants <= total, the rotation lists exactly the keys with waiters once each, every pending acquire is queued once or granted, a waiter queued means no slot is free |
| Scheduler.InitIsSafe | crates/engine-api/src/concurrency.rs:51-60 | the invariant holds at the start |
| Scheduler.ReachableStatesAreSafe | crates/engine-api/src/concurrency.rs:42-138 | over any run no slot is leaked or exceeded and no wakeup lost |
| Scheduler.GrantEffect | crates/engine-api/src/concurrency.rs:106-128 | which waiter a step grants to and how it turns the rotation |
| Scheduler.QuietEffect | crates/engine-api/src/concurrency.rs:65-138 | a step that grants to no waiter only appends keys or drops emptied ones, and keeps every other waiter |
| Scheduler.BoundedBypass | crates/engine-api/src/concurrency.rs:65-138 | a waiter at depth j of the key at index i is among the next i + 1 + j * m grants while it waits, whatever arrives or times out |
| Scheduler.WaiterCanBeServed | crates/engine-api/src/concurrency.rs:42-138 | no waiter is stuck: from any reachable state with slots, guards dropped and grants received or given back hand it one, in at most two steps for each grant before it |
| Scheduler.GivingUpLeavesNothing | crates/engine-api/src/concurrency.rs:86-98 | from any reachable state a deadline ends its acquire and leaves no waiter, no grant and no slot of it behind, whether or not a grant came first |
| Scheduler.EvenTurns | crates/engine-api/src/concurrency.rs:106-138 | two keys that both stay pending are granted to in turn: their counts never differ by more than one |
| Scheduler.NoOvertaking | crates/engine-api/src/concurrency.rs:106-138 | a key that is behind another in the rotation, or out of it, is granted nothing before that one is |
| Scheduler.BetweenTwoGrants | crates/engine-api/src/concurrency.rs:106-138 | between two grants to one key every other key that stayed pending is granted to |
| Scheduler.FifoWithinKey | crates/engine-api/src/concurrency.rs:65-138 | over any run, from the start too, grants to one key go in arrival order, all before whoever of that key still waits |
| Pool.MemPool.constructor | crates/engine-api/src/concurrency.rs:154-160 | a new pool has nothing used |
| Pool.MemPool.Reserve | crates/engine-api/src/concurrency.rs:162-187 | one turn of the wait loop takes n bytes exactly when they fit |
| Pool.MemPool.Release | crates/engine-api/src/concurrency.rs:189-194 | n bytes come back |
| Pool.RunLimiter.constructor | crates/engine/src/lib.rs:98-105 | a run starts with no claim and no reservation |
| Pool.RunLimiter.Charge | crates/engine/src/lib.rs:115-125 | growth past the ceiling is denied and leaves the claim as it was; otherwise the claim rises and the pool is asked for what the reservation lacks |
| Pool.DeniedExactly | crates/engine/src/lib.rs:115-133 | a charge is denied exactly when it would take the claim over the ceiling, so growth to the ceiling itself is not; otherwise the pool is asked for exactly what the reservation lacks |
| Pool.EffectiveLimitIsTheLower | crates/engine/src/lib.rs:482-497 | a run's ceiling is the lower of the engine's and the one it asks for |
| Pool.RunLimiter.Grow | crates/engine/src/lib.rs:64-68 | when the pool serves it the reservation equals the claim |
| Pool.RunLimiter.GiveUp | crates/engine/src/lib.rs:126-131 | a refused growth is taken back from the claim |
| Pool.RunLimiter.Close | crates/engine/src/lib.rs:71-77 | dropping a run returns its whole reservation |
| Pool.StepKeepsInv | crates/engine/src/lib.rs:58-133 | used = sum of live reservations <= total, and between charges a run's claim is its reservation within its ceiling, through denials too |
| Pool.WaitIsSettled | crates/engine-api/src/concurrency.rs:162-187 | in every reachable state a waiting growth is served exactly when what it lacks fits, and can otherwise be refused |
| Pool.ReachableAccounts | crates/engine/src/lib.rs:243-249 | from any configuration start-up accepts, over any interleaving: the accounts balance, and nothing is used once every run ended |
| Pool.LoneRunIsServed | crates/engine/src/lib.rs:243-249 | a run that holds the pool alone is never denied by it |
| Pool.LoneGrowth | crates/engine/src/lib.rs:115-133 | from any reachable state, a lone run that grows within its ceiling is served the whole growth and cannot be refused it |
| Pool.LoneRunObtainsAll | crates/engine/src/lib.rs:115-133 | and so it obtains every sequence of growths whose sum stays within its ceiling |
| Pool.FirstRunObtainsAll | crates/engine/src/lib.rs:243-249 | so from any configuration start-up accepts a first run obtains all that both ceilings allow |
| Pool.PoolSizeExactly | crates/engine/src/lib.rs:243-249 | start-up refuses exactly a pool that a run at the full ceiling does not fit in; zero means no pool |
| Pool.FootprintIsGrantedGrowth | crates/engine/src/lib.rs:115-133 | a run's reservation grows by exactly the growth granted to its guest |
| StepSlots.StepSlots.constructor | crates/engine-api/src/concurrency.rs:234-238 | no keys at first |
| StepSlots.StepSlots.Find | crates/engine-api/src/concurrency.rs:243-256 | the key's entry, made with the given capacity if there is none, stamped now |
| StepSlots.StepSlots.Take | crates/engine-api/src/concurrency.rs:257-277 | a turn of the wait loop takes a slot exactly when the entry has one |
| StepSlots.StepSlots.Give | crates/engine-api/src/concurrency.rs:219-225 | a dropped guard returns its slot |
| StepSlots.StepSlots.SweepIdle | crates/engine-api/src/concurrency.rs:282-289 | the loop leaves linked exactly the entries that a sweep keeps |
| StepSlots.SweptExactly | crates/engine-api/src/concurrency.rs:282-289 | an entry is unlinked exactly when no slot of it is held and its stamp is more than 600 seconds old; no other key is |
| StepSlots.FoundExactly | crates/engine-api/src/concurrency.rs:243-256 | a known key keeps its entry but for the stamp, a new one gets an entry with n free slots |
| StepSlots.StepKeepsInv | crates/engine-api/src/concurrency.rs:219-289 | in every interleaving an entry's count is its live guards and at most its capacity |
| StepSlots.TurnsExactly | crates/engine-api/src/concurrency.rs:257-277 | in every reachable state a waiting acquire takes a slot exactly when the live guards on its entry leave one, and is refused only when they are as many as its capacity |
| StepSlots.SweepSparesHeld | crates/engine-api/src/concurrency.rs:282-289 | a sweep never unlinks an entry a live guard is on |
| StepSlots.StepBoundHolds | crates/engine-api/src/concurrency.rs:243-289 | a key's live guards never exceed its capacity in any run none of whose sweeps unlinks an entry an acquire waits on |
| StepSlots.UncleanBreaksTheBound | crates/engine-api/src/concurrency.rs:282-289 | after any other sweep, in any reachable state, some continuation breaks the bound |
| StepSlots.PromptIsClean | crates/engine-api/src/concurrency.rs:280-289 | acquires that settle within ten minutes of their stamp keep every sweep clean |
| StepSlots.OrphanBreaksTheBound | crates/engine-api/src/concurrency.rs:243-278 | an entry unlinked under a waiting acquire leads in three steps to two guards on a key of capacity one |
| StepSlots.LateAcquireOverruns | crates/engine-api/src/concurrency.rs:243-289 | such a run from the start |
| Epoch.DeadlineCallback.constructor | crates/engine/src/component.rs:184-188 | the callback starts with nothing credited |
| Epoch.DeadlineCallback.OnDeadline | crates/engine/src/component.rs:188-209 | a firing gives the verdict and credit of the modelled closure |
| Epoch.FiringIsBounded | crates/engine/src/component.rs:184-209 | a firing goes on exactly when the hard deadline is ahead and a whole tick is owed, never past one tick beyond the hard deadline and leaving less than a tick owed unless that deadline is near |
| Epoch.DeadlineTicksExactly | crates/engine/src/run.rs:65-68 | a budget is the fewest ticks of ten milliseconds that cover it, at least one |
| Epoch.CreditIsBacked | crates/engine/src/component.rs:184-209 | over any run the ticks handed out never exceed the counted HTTP time, and firings that go on are at most that many: the run terminates |
| Epoch.CreditIsComplete | crates/engine/src/component.rs:184-209 | without a hard deadline nothing owed is withheld but a rest below one tick |
| Epoch.HardDeadlineHolds | crates/engine/src/component.rs:143-209 | no firing at or past the hard deadline goes on |
| Epoch.GivenIsBounded | crates/engine/src/component.rs:184-209 | a run is given at most its own ticks and the counted HTTP time in whole ticks |
| Epoch.RunLastsGivenAndLateness | crates/engine/src/component.rs:184-209 | a run lasts at most the ticks it is given and its lateness, and exactly that when no firing comes early |
| Epoch.TwiceTheBudgetExactly | crates/engine/src/component.rs:184-209 | every run with that much counted HTTP time and lateness ends within twice its budget and a tick exactly when the two fit beside its own ticks |
| Epoch.AtMostTwiceTheBudget | crates/engine/src/run.rs:65-68 | a run that is never late, whose sends follow one another and end by the deadline, meets the bound |
| Epoch.OverlappingSendsExceedTwice | crates/engine/src/wasihttp.rs:94-101 | three overlapping sends break the bound |
| Epoch.SlowBodiesExceedTwice | crates/engine/src/wasihttp.rs:94-118 | so do three sends one after another, each held open by its body: the run is given four budgets |
| Epoch.LateFiringExceedsTwice | crates/engine/src/component.rs:184-209 | so does one send within the budget of a run whose deadline fires ten budgets in: it goes on to eleven |
| Wire.OrIsAdd | crates/function/src/protowire.rs:140-156 | or-ing the next group in is addition, in 64-bit vectors |
| Wire.ReadVarint | crates/function/src/protowire.rs:140-156 | the loop reads the varint at an index, refusing more than ten bytes and ends of input |
| Wire.WriteVarint | crates/function/src/protowire.rs:158-168 | the loop appends the base-128 encoding |
| Wire.U64IsTwoTo64 | crates/function/src/protowire.rs:140-156 | the width at which a varint is cut off |
| Wire.VarintIsBase128 | crates/function/src/protowire.rs:140-156 | a byte below 128 is its own value; a larger one adds its low seven bits to 128 times the number behind it |
| Wire.PushedIsShortest | crates/function/src/protowire.rs:158-168 | the encoding is the shortest: continuation bits on all bytes but the last, and no zero group last |
| Wire.VarintRoundTrip | crates/function/src/protowire.rs:140-168 | every u64 reads back from its encoding, at most ten bytes, whatever follows |
| Wire.SkipValue | crates/function/src/protowire.rs:126-138 | the end of a value of each wire type, and none for groups or truncated values |
| Wire.DelimitedIs | crates/function/src/protowire.rs:126-138 | bytes with a one-byte tag of wire type 2 are one field of that number with that body |
| Wire.FixedIs | crates/function/src/protowire.rs:126-138 | and a tag of wire type 0, 1 or 5 takes a varint, eight or four bytes, any other none |
| Wire.MapEntryKey | crates/function/src/protowire.rs:62-80 | the last key of an entry, none when it does not parse or a key is not a string |
| Wire.FlattenParse | crates/function/src/protowire.rs:35-60 | bytes that parse are their fields in order |
| Wire.ParseFlatten | crates/function/src/protowire.rs:35-60 | a sequence of well-formed fields is read back from its bytes |
| Wire.RetainCredentials | crates/function/src/protowire.rs:35-60 | the loop yields the kept fields' bytes, or nothing when the bytes do not parse |
| Wire.CredentialIsWithheld | crates/function/src/protowire.rs:22-82 | in bytes: an entry `3a` with its name under `0a` and value under `12` is dropped unless its name is a string that is forwarded, and what follows it is edited as if alone |
| Wire.NamelessIsWithheld | crates/function/src/protowire.rs:35-60 | in bytes: an entry `3a` without a readable name is dropped |
| Wire.NoEntryIsWithheld | crates/function/src/protowire.rs:43-55 | in bytes: so is a field 7 of another wire type |
| Wire.OtherFieldsStay | crates/function/src/protowire.rs:35-60 | in bytes: a field whose tag byte names a number other than 7 stays as it is |
| Wire.RetainIsAFilter | crates/function/src/protowire.rs:35-60 | it fails exactly on bytes that are not fields, and otherwise its output parses to the filtered field sequence, kept bytes verbatim |
| Wire.RetainComposes | crates/function/src/protowire.rs:35-60 | two filters compose as their conjunction, so one is idempotent |
| Wire.GuestReadsExactlyTheGrants | crates/function/src/protowire.rs:35-82 | a last-value-wins decoder of the edited bytes reads no ungranted name and never the pull credential; a granted entry survives exactly when the entry read for it states its key, as every non-empty name does |
| Wire.RunnerForwardsExactlyTheGrants | crates/function/src/runner.rs:432-458 | of the request as the runner forwards it, untouched or edited, the guest reads exactly the granted credentials but the pull credential, each with its value |
| Wire.AppendMeta | crates/function/src/protowire.rs:85-90 | appends tag, length and meta |
| Wire.MetaInBytes | crates/function/src/protowire.rs:85-90 | in bytes: the meta stands under tag byte `0a` |
| Wire.AppendMetaAppendsOneField | crates/function/src/protowire.rs:85-90 | a response that parses gains exactly one field 1 and keeps the rest |
| Wire.NoopResponse | crates/function/src/protowire.rs:99-122 | the loop yields meta and the crossing fields of the parseable prefix |
| Wire.NoopIsMetaThenCrossing | crates/function/src/protowire.rs:99-122 | the output always parses, to meta and then the crossing fields; for a request that parses these are all of its own |
| Wire.CrossingBodies | crates/function/src/protowire.rs:99-122 | desired state and context cross in order under fields 2 and 4 with bodies verbatim, and nothing else does |
| Wire.StateCrosses | crates/function/src/protowire.rs:99-122 | in bytes: the desired state `1a` becomes `12` and the context `2a` becomes `22`, bodies unchanged |
| Wire.OthersDoNotCross | crates/function/src/protowire.rs:99-122 | in bytes: a field under any other tag byte leaves nothing |
| Wire.NoopIsBareMeta | crates/function/src/protowire.rs:97-122 | the output is the bare meta exactly when nothing crosses before the break |
| Wire.BrokenRequestStillCrosses | crates/function/src/protowire.rs:97-122 | a request that does not parse and still crosses |
| Wire.GroupsDoNotParse | crates/function/src/protowire.rs:126-138 | bytes that a group-skipping decoder reads parse exactly when no field of theirs is a group, and then to the same fields |
| Wire.UnknownGroupDecodes | crates/function/src/protowire.rs:31-34 | a request with an empty unknown group decodes and does not parse |
| Wire.WrappingSkipAgrees | crates/function/src/protowire.rs:130-134 | a wrapping sum agrees with the integer sum exactly when it does not wrap back inside the bytes, so on every value of bytes that parse |
| EgressRules.Grant | crates/function/src/egress.rs:125-163 | the loop compiles every rule in order or names the first it refuses |
| EgressRules.ShapeExactly | crates/function/src/egress_rules.rs:27-123 | validation passes exactly the rules with one host or one pattern free of reserved characters, methods of the seven, and an empty or a rooted and normalized prefix |
| EgressRules.RuleAdmitsExactly | crates/function/src/egress.rs:125-163 | a compiled rule admits exactly the rule's own host, or the hosts with something in front of what its star stands before, its listed methods and the paths under its prefix |
| EgressRules.ShapeCompiles | crates/function/src/egress.rs:125-163 | a rule that passes validation compiles, to its normalised host or its suffix, its methods in upper case and its prefix |
| EgressRules.Admit | crates/function/src/egress.rs:214-256 | the loop admits exactly what some rule admits, and which refusal it gives says whether any rule matched the host |
| EgressRules.NormalForm | crates/function/src/egress_rules.rs:81-85 | a normalised host in terms of the text before its trailing dots |
| EgressRules.NormalizedText | crates/function/src/egress_rules.rs:79-83 | normalising drops the white space around a host, then the dots behind it, and lower-cases the rest |
| EgressRules.CaseIsAscii | crates/function/src/egress_rules.rs:79-83 | the 26 capitals and their small letters are exchanged, every other character stays |
| EgressRules.SpacesAre | crates/function/src/egress_rules.rs:79-83 | the characters trimmed are the 25 of the Unicode property White_Space |
| EgressRules.SameHostExactly | crates/function/src/manifest.rs:682-688 | two exact hosts that coverage calls the same are the same to a request exactly when not one of them alone has dots after a space |
| EgressRules.HostCoverageSound | crates/function/src/manifest.rs:681-694 | every host a covered rule matches, the covering one matches |
| EgressRules.HostCoverageExactly | crates/function/src/manifest.rs:681-694 | unless both hosts are exact, a rule's host is covered if and only if the other rule matches every host it matches |
| EgressRules.MethodCoverageSound | crates/function/src/manifest.rs:696-700 | covered methods stay covered once in upper case |
| EgressRules.RuleCoverageSound | crates/function/src/manifest.rs:673-694 | every request a covered rule admits, the covering one admits |
| EgressRules.CoverageIsSound | crates/function/src/manifest.rs:673-700 | if every required rule is covered by a granted one with which it agrees on dots, every method, URL and path the required list admits the granted list admits, and both compile |
| EgressRules.CoverageFailsExactly | crates/function/src/manifest.rs:682-688 | for a covered pair of exact hosts, the request to the required host is admitted by the granted rule if and only if the condition on dots holds |
| EgressRules.CarriageReturnBreaksCoverage | crates/function/src/manifest.rs:682-688 | two valid rules, one covering the other, that break it |
| EgressRules.CoveredReflexive | crates/function/src/manifest.rs:673-700 | a valid rule covers itself |
| EgressRules.CoveredTransitive | crates/function/src/manifest.rs:673-700 | coverage carries through a layer |
| Dial.AndBits | crates/function/src/authz.rs:616-647 | the mask's conjunction, bit by bit |
| Dial.ContainsExactly | crates/function/src/authz.rs:616-667 | a masked prefix contains exactly its own family's addresses with its leading bits, none of the other family whatever the length |
| Dial.NetworkIsRange | crates/function/src/authz.rs:616-667 | which are the addresses that agree with the base once shifted |
| Dial.LiteralExact | crates/function/src/authz.rs:596-614 | a literal compiles to a prefix that contains what the literal names, a bare address only itself |
| Dial.LoopbackExact | crates/function/src/authz.rs:762-773 | the loopback prefixes are 127.0.0.0/8 and ::1 |
| Dial.TestExact | crates/function/src/authz.rs:741-800 | the compiler takes exactly the supported tests, and the prefixes contain an address exactly when the test holds of it |
| Dial.RuleExact | crates/function/src/authz.rs:688-736 | some prefix a rule yields contains an address exactly when the rule applies to it and is not skipped for its action scope; so it compiles to less than it means exactly when it is skipped and applies |
| Dial.AcceptedExactly | crates/function/src/authz.rs:688-800 | the compiler takes a rule exactly when it does not list dialAddress in a set and, if scoped to equal it, constrains neither principal nor resource and has at most one condition, a `when` over supported tests; it yields prefixes exactly for that scope |
| Dial.CompileIpRules | crates/function/src/authz.rs:554-572 | the loop fills the two lists with what the forbids and the permits yield, or reports the malformed rule whose id sorts first: it succeeds exactly when every rule is accepted |
| Dial.FindExact | crates/function/src/egress.rs:182-194 | the search finds a containing prefix exactly when there is one |
| Dial.DecisionExact | crates/function/src/egress.rs:182-194 | an address is refused exactly when, unmapped, a forbid that is not skipped applies, or no such permit applies and a default range contains it; that is what all the rules mean exactly where no skipped rule is overlooked, so everywhere when none is skipped |
| Dial.SkippedForbidRefusesNothing | crates/function/src/authz.rs:691-705 | a forbid over everything in a skipped shape is no error and refuses no address off the default list |
| Dial.RuleOrderIsIrrelevant | crates/function/src/authz.rs:554-572 | whatever the order of the rules or their repetition |
| Dial.MappedIsJudgedAsIPv4 | crates/function/src/egress.rs:759-767 | ::ffff:a.b.c.d is judged as a.b.c.d |
| Dial.MappedRangesAreInert | crates/function/src/authz.rs:738-741 | a prefix contains what it is written with, and no address as it is judged exactly when it lies within the IPv4-mapped form |
| Dial.Defaults4 | crates/function/src/egress.rs:35-50 | the default list over IPv4, as plain ranges |
| Dial.Defaults6 | crates/function/src/egress.rs:35-50 | and over IPv6 |
| Bucket.RateLimiters.constructor | crates/function/src/egress.rs:782-788 | no buckets at first |
| Bucket.RateLimiters.Allow | crates/function/src/egress.rs:792-810 | a request is let through exactly when a token is available, and takes it |
| Bucket.RateLimiters.Sweep | crates/function/src/egress.rs:168-176 | exactly the buckets used in the last ten minutes stay |
| Bucket.SweptExactly | crates/function/src/egress.rs:168-176 | a bucket goes exactly when it is unused for more than 600 seconds, and no other changes |
| Bucket.Waiting | crates/function/src/egress.rs:792-804 | tokens stay between nothing and the burst and refill at the rate |
| Bucket.RefillsPerMinute | crates/function/src/egress.rs:792-804 | each second adds a sixtieth of the rate per minute, up to the burst; a digest that has not asked has the whole burst |
| Bucket.AskSpends | crates/function/src/egress.rs:792-810 | a request spends one token of its own digest or none, and no other digest notices |
| Bucket.AsksServed | crates/function/src/egress.rs:792-810 | a bucket with n tokens serves n requests at once |
| Bucket.RunSettles | crates/function/src/egress.rs:168-176 | every reachable bucket holds between nothing and the burst, sweeps or not |
| Bucket.WindowBound | crates/function/src/egress.rs:792-810 | a digest is let through at most burst + rate * (t - s) times in any window without a sweep |
| Bucket.SweepIsUnobservable | crates/function/src/egress.rs:165-176 | if ten idle minutes refill a bucket, every run gets the answers it would get without sweeps |
| Bucket.WindowBoundAcrossSweeps | crates/function/src/egress.rs:165-176 | so the bound then holds in every window |
| Bucket.SweepBreaksTheBound | crates/function/src/egress.rs:165-176 | otherwise a run breaks the bound and tells the sweep apart |
| Bucket.DerivedBurst | crates/function/src/egress.rs:95-103 | a burst that is not given is the rate rounded down and at least one, and meets the condition exactly from a tenth of a request a minute up |
| Duration.WriteFrac | crates/engine-api/src/duration.rs:37-49 | the loop that drops trailing zeros |
| Duration.ReadDuration | crates/engine-api/src/duration.rs:53-110 | the loop reads number and unit until nothing is left |
| Duration.WholeDuration | crates/engine-api/src/duration.rs:76-84 | a whole count of ns, us, ms, s, m or h, either micro sign included, reads as the product with its nanoseconds while a u64 holds it |
| Duration.OtherUnitIsRefused | crates/engine-api/src/duration.rs:76-84 | no other unit is read |
| Duration.FracDigits | crates/engine-api/src/duration.rs:35-49 | a fraction is printed as its digits without trailing zeros |
| Duration.LargestUnitFirst | crates/engine-api/src/duration.rs:9-33 | from a second up the largest unit comes first and zero-valued inner units are kept |
| Duration.ShortFormat | crates/engine-api/src/duration.rs:11-26 | below a second the unit is ns, µs or ms by size, with the remainder as three or six digits less their trailing zeros; nothing is `0s` |
| Duration.FormatRoundTrip | crates/engine-api/src/duration.rs:11-110 | every duration of at most u64::MAX nanoseconds is read back from its text, and a longer one refused |
| Duration.ParseReads | crates/engine-api/src/duration.rs:53-110 | what `parse` makes of any sequence of numbers with units: their sum with wrapped products, or an error exactly when that is too long, a fraction has over 38 digits or a later number starts with its dot |
| Duration.ParseAcceptsTokens | crates/engine-api/src/duration.rs:53-110 | a text is accepted exactly when it is a sequence of numbers with units read to less than 2^64, and that is the result |
| Duration.ParseIsTheFloor | crates/engine-api/src/duration.rs:53-110 | with at most 25 fraction digits each the result is the sum of the values rounded down, or an error exactly when that does not fit or a later number starts with its dot |
| Duration.ExactWithoutWrap | crates/engine-api/src/duration.rs:100-104 | of a text it can read the true value is returned if and only if no product wraps, or even the wrapped sum is too long |
| Duration.LongFractionMisread | crates/engine-api/src/duration.rs:100-104 | 26 nines of an hour are read as less than they are |
| Quantity.ParseIsTheCeiling | crates/function/src/quantity.rs:26-71 | with at most twenty fraction digits the result is the ceiling of number times scale, or an error exactly when that does not fit |
| Quantity.WholeQuantity | crates/function/src/quantity.rs:6-24 | a whole count of each of the thirteen suffixes reads as the product with its unit, negated behind a minus, while that is below 2^127 |
| Quantity.OtherSuffixIsRefused | crates/function/src/quantity.rs:40-48 | no other suffix is read |
| Quantity.ParseReads | crates/function/src/quantity.rs:26-71 | what `parse` makes of any sign, digits and suffix, wrapped products included |
| Quantity.AcceptedIsAQuantity | crates/function/src/quantity.rs:26-71 | every text accepted is a sign, digits with at most one dot and a suffix |
| Quantity.ExactWithoutWrap | crates/function/src/quantity.rs:61-69 | up to the 38 fraction digits it reads, `parse` returns the ceiling, or an error for one that does not fit, if and only if the product does not wrap or even the wrapped value does not fit |
| Quantity.LongFractionWraps | crates/function/src/quantity.rs:61-68 | 21 nines of an exbibyte are read as less than they are |
| Quantity.FormatRoundTrip | crates/function/src/quantity.rs:75-83 | every u64 byte count is read back from its text |
| Quantity.FormatPicksTheLargest | crates/function/src/quantity.rs:73-83 | the printed suffix is the largest whose unit divides the count evenly, none when none does |
| Quantity.FormatIsInLargestUnit | crates/function/src/quantity.rs:6-13 | the same with the six units by value |
| Quantity.FormatIsPlain | crates/function/src/quantity.rs:75-83 | and plain when none of them divides the count |
| Decimal.DecRoundTrip | crates/function/src/quantity.rs:75-83 | decimal text reads back |
| Decimal.DigitsAreDecimal | crates/function/src/quantity.rs:49-69 | text is read in base ten with the ten ASCII digits by value, and a digit is printed as itself |
| Decimal.U128IsTwoTo128 | crates/function/src/quantity.rs:58-69 | the width that products wrap at |
| Location.Run | crates/function/src/location.rs:165-200 | the closure stops at the first character outside the run |
| Location.SkipSeparator | crates/function/src/location.rs:165-200 | the match on a separator |
| Location.RunCharacters | crates/function/src/location.rs:167 | a run is of the 26 small letters and the ten digits |
| Location.RepositorySegmentIsValid | crates/function/src/location.rs:165-200 | the scanner accepts exactly the name-component grammar of the OCI Distribution Specification |
| Location.ScanDecidesGrammar | crates/function/src/location.rs:165-200 | the recursive scan decides that grammar |
| Location.CleanPath | crates/function/src/location.rs:246-274 | the loop over segments yields the cleaned path |
| Location.CleanDenotesSameNode | crates/function/src/location.rs:246-274 | cleaning keeps where a path leads, by stack resolution, and whether it is rooted |
| Location.CleanIsCanonical | crates/function/src/location.rs:246-274 | two paths clean alike exactly when they lead to the same node from the same start; cleaning twice changes nothing |
| Location.NormalizedIsPlain | crates/function/src/location.rs:232-244 | a rooted path passes exactly when no segment is empty, `.` or `..`, one trailing slash allowed |
| Location.NormalizedSurvivesDotRemoval | crates/function/src/location.rs:232-244 | and is then left alone by remove_dot_segments, section 5.2.4 of RFC 3986 |
| Location.DotSegmentsGo | crates/function/src/location.rs:232-244 | steps A to D of that section, for the reference function the theorem uses |
| Pae.LengthIsDelimited | crates/function/src/cosign.rs:567-576 | a printed length and the space after it delimit it, whatever follows |
| Pae.EncodeInjective | crates/function/src/cosign.rs:567-576 | the encoding is injective on type and payload |
| Pae.EncodeIs | crates/function/src/cosign.rs:567-576 | the layout in bytes: `DSSEv1 `, then length, space and bytes of the type, a space, and the same of the payload |
| Order.SortBySorts | crates/function/src/authz.rs:557-559 | sorting by id sorts, and keeps the rules |
| Order.LeqExactly | crates/function/src/compose.rs:59-62 | the order of ids and names: a prefix first, otherwise the smaller character where two texts first differ |
| Compose.GroupIsNamed | crates/function/src/compose.rs:129-134 | the group is what stands before the last slash, or core |
| Compose.KindIsStated | crates/function/src/compose.rs:113-134 | a body states a kind exactly when its `apiVersion` and `kind` are non-empty strings: the kind under the group before the version's last slash, `core` when there is none |
| Compose.SortedNames | crates/function/src/compose.rs:59-62 | the names of both sides, sorted, each once |
| Compose.SortedIsUnique | crates/function/src/compose.rs:19-24 | there is one such list, so a map's order cannot show |
| Compose.CompositeChange | crates/function/src/compose.rs:43-58 | the composite resource's change, its kind looked up in order |
| Compose.CompositeIsNamed | crates/function/src/compose.rs:43-58 | a composite that differs is one add, modify or remove, of the kind given by the caller, else stated by the response, else by the request, else empty |
| Compose.ChangesOf | crates/function/src/compose.rs:75-89 | one name's changes, a kind swap as a remove and an add |
| Compose.Changes | crates/function/src/compose.rs:37-92 | the loop yields the composite's change, then each sorted name's, or the name it cannot judge |
| Compose.ErrsExactly | crates/function/src/compose.rs:67-74 | it errs exactly when a resource of the response states no kind, and names the first |
| Compose.ChangesReplay | crates/function/src/compose.rs:37-92 | replayed over the request's kinds by name the changes give the response's |
| Compose.MentionedExactly | crates/function/src/compose.rs:105-112 | a name is mentioned exactly when its two sides differ by value, the composite likewise |
| Compose.ListedFor | crates/function/src/compose.rs:63-90 | a change is listed exactly when it is one of its own name's changes |
| Compose.ListedInOrder | crates/function/src/compose.rs:19-31 | names are sorted, and one appears twice only as remove then, at once, add of another kind |
| Compose.AdmitCompose | crates/function/src/admission.rs:207-223 | the loop accepts exactly when both layers admit every change, and otherwise names the first it refuses and by which layer |
| Compose.FenceIsExact | crates/function/src/admission.rs:184-223 | a layer admits the changes exactly when it permits what happened to the composite and to every name |
| Cache.ModuleCache.constructor | crates/function/src/cache.rs:65-77 | nothing cached, nothing loading |
| Cache.ModuleCache.MemoryGet | crates/function/src/cache.rs:198-208 | a lookup drops expired entries and stamps the one it finds |
| Cache.LookupIsFresh | crates/function/src/cache.rs:198-208 | a lookup yields a module exactly when it was used within the idle time, makes it the most recently used and leaves other fresh entries alone |
| Cache.ModuleCache.Oldest | crates/function/src/cache.rs:223-228 | the least recently used key |
| Cache.ModuleCache.MemoryPut | crates/function/src/cache.rs:210-232 | a put restores the size bound by dropping the least recently used |
| Cache.PutKeepsTheNewest | crates/function/src/cache.rs:210-232 | a put later than every use keeps the new module, drops nothing while the entries fit, and in a full tier keeps as many as the bound, none older than one it drops |
| Cache.ModuleCache.JoinFlight | crates/function/src/cache.rs:95-98 | the flight registered for a digest, or a new one |
| Cache.ModuleCache.LeaveFlight | crates/function/src/cache.rs:103-105 | no flight is registered for the digest |
| Cache.StepKeepsInv | crates/function/src/cache.rs:81-232 | every step keeps permits, loaders, provenance and size |
| Cache.StepKeepsPermits | crates/function/src/cache.rs:147-188 | every permit is free or with a running compile, timed-out requests included |
| Cache.ReachableCacheIsSafe | crates/function/src/cache.rs:65-232 | in every reachable state no more threads compile than the option says, one where it says zero, one load runs per cell, entries hold modules made for their digest, and the memory tier keeps to its bound |
| Cache.EveryPermitIsUsed | crates/function/src/cache.rs:72 | the bound is met: for every setting some run has that many threads compiling at once |
| Cache.OnlySuccessIsKept | crates/function/src/cache.rs:99-110 | the memory tier takes a module only from a load that succeeded |
| Cache.SharedLoadServes | crates/function/src/cache.rs:99-110 | every request on the cell of a load that succeeded can go on to return its module and put it in the memory tier |
| Cache.CleanRunIsSingleFlight | crates/function/src/cache.rs:95-105 | loads are single-flight per digest while no pending flight is dropped |
| Cache.UncleanBreaksSingleFlight | crates/function/src/cache.rs:103-105 | and after any other drop some continuation runs two loads of the digest |
| Cache.SingleFlightFails | crates/function/src/cache.rs:95-105 | such a run exists for every digest and every setting |

## Left out

- Cedar evaluation and policy parsing, wasmtime, WASI, the network, DNS, TLS, gRPC, Sigstore and the file system: foreign code, taken as parameters or steps.
- `store.rs`, JSON Schema, serde decoding, CRDs, CLI, logs, metrics, health: plumbing that would add only easy members.
- `format_bytes`, OCI reference and URL splitting: short expressions with no property beyond their body.
- Refusal texts: errors are variants; which layer refused and which entry is kept.
- Wait loops and condition variables: each turn under the lock is one step, and fairness of the mutex is not modelled.
- Machine widths: waiter ids, `used`, `charged`, stamps and token counts are unbounded integers or reals; wrap-around is modelled where the source leaves a product or a sum unchecked on input data (`Wire`, `Decimal`).
- Shared pointers: a step entry, an async cell and a thread are indices into a sequence that only grows.
- Dial.ContainsExactly: the shift of an over-long length is the release build's; a build that checks overflow stops there instead.
- Wire.RunnerForwardsExactlyTheGrants: that a typed decode accepts only credentials that are entries with strings for keys is a hypothesis, since the decoder is not part of this model.
- Wire.GroupsDoNotParse: a decoder's limit on the depth of nested groups is not modelled.
- Dial.LiteralExact: starts from a literal already read as an address and a length, not from its text.
- Dial.RuleExact: groups of actions, the hierarchy Cedar could place dialAddress in, are not modelled.
- EgressRules.SameHostExactly: lower-casing is ASCII's, since a host that differs beyond it is not an ASCII host name.
- Bucket.WindowBound: tokens and seconds are real numbers, so rounding is not modelled.
- Epoch.AtMostTwiceTheBudget: a corollary for runs the code does not enforce; `TwiceTheBudgetExactly` has the exact condition.
- Location.NormalizedIsPlain: for rooted paths, which are what its callers pass besides the empty one; a relative path may start with `..`.
- Compose.MentionedExactly: a number field that is NaN differs from itself in the source, so a resource that holds one is always a change; equality is reflexive here.
- Compose.ChangesReplay: replays kinds by name; bodies are not part of a change, `MentionedExactly` covers them by value.
