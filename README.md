# Timing wheel of thinkgos/biny, in Dafny

This project models the hierarchical timing wheel of `wheel.go`. The wheel
holds timer entries on 512 FIFO lists called spokes. The first 256 spokes
are the main level, indexed by the low 8 bits of a deadline tick. The
other 256 form four cascade levels of 64 spokes, indexed by successive
6-bit digits. A separate list, `doNow`, holds the entries due at the
current wake-up.

The model covers:
- placing an entry (`addTimer`);
- computing deadlines (`nextTimeout`);
- creating, adding, restarting and deleting jobs (`NewJob`, `AddJob`,
  `Start`, `Delete`);
- counting entries (`Len`);
- moving entries down a level (`cascade`);
- the body of one wake-up of the worker: advance the current tick to the
  wall clock, then fire every due entry.

Modules:
- `Ticks` (ticks.dfy): Go's `uint32` and `int64` arithmetic. This covers
  wrap-around, truncating division and `nextTimeout`.
- `Slots` (slots.dfy): the radix placement of `addTimer`, the level index
  of `cascade`, and the ticks at which the tick loop cascades.
- `Jobs` (jobs.dfy): an entry record and what one firing does to it.
- `Buckets` (buckets.dfy): the lists as sequences.
  - Each attached entry has a back-pointer (`home`) to the list it is on.
    That back-pointer is what the list library's `RemoveSelf` uses.
  - `Agree` says that the lists and the back-pointers match, and that no
    list holds an entry twice.
  - The lemmas show that every push, pop, splice and removal keeps `Agree`.
- `Timing` (wheel.dfy): the `Wheel` class.
  - Its methods update the spokes array, `doNow`, the current tick, the
    entry records and the back-pointers in place.
  - Its `Valid()` invariant is `Agree`.
  - `Total()` is the number of entries on the wheel, the value `Len`
    returns.

The wall clock is a parameter (`nowNano`, `nano`). Running a job is
recorded in a ghost log, `fired`.

Three behaviours of the code are kept as written:
- An entry is not always on the spoke its deadline selects. That placement
  is computed once, against the current tick at the time of placement. A
  spoke is drained only when the tick loop or `cascade` reaches it.
- `addTimer` puts an entry whose deadline equals the current tick on the
  main slot the tick loop has just passed. That entry waits a full turn of
  256 ticks (`Slots.MainSlotReachedAtDeadline`). Only `AddJob` sends such
  an entry straight to `doNow`.
- `cascade` reads a level's index at bit offset `8 + 4L`, while `addTimer`
  places by the 6-bit digit at `8 + 6L`. `Timing.Wheel.Cascade` drains the
  spokes the code drains. The consequences (a spoke never drained, a
  cascade that never ends) are under Findings, next to the proof of what
  the offset `8 + 6L` would give.

## Model

| member | source | states |
|---|---|---|
| Ticks.TruncDiv | wheel.go:117 | Go's division of a duration by the positive granularity truncates toward zero: the exact bounds on `r * b` for non-negative and for negative dividends |
| Ticks.Sub32 | wheel.go:264 | `next - curTick` on `uint32` is the distance `r` with `(curTick + r) mod 2^32 == next`, the plain difference when there is no wrap |
| Ticks.NextTimeoutIsCeiling | wheel.go:116-118 | for a non-negative sum `now + timeout` that does not overflow, the deadline tick is the ceiling of `(now + timeout) / granularity`, cut to 32 bits: the least `R` with `R * granularity >= now + timeout` |
| Ticks.NextTimeoutNotBeforeNow | wheel.go:116-118 | for a non-negative `now`, a non-negative timeout and no overflow, the deadline tick is never below the tick of `now` |
| Slots.PlaceLevel | wheel.go:268-271 | the level picked for a distance of 256 ticks or more is below 4, each skipped level's digit window overflows (shifted value `>= 64`), and the picked one holds the rest of the distance unless it is the last |
| Slots.PlaceSpoke | wheel.go:263-273 | the spoke `addTimer` selects is always an index of the 512-spoke array |
| Slots.PlaceLevelSpan | wheel.go:266-273 | a distance put on level `L` is at least `2^(8+6L)` and, below the last level, less than `2^(8+6(L+1))`: each level covers the distances its slot width is meant for |
| Slots.MainSlotReachedAtDeadline | wheel.go:264-265 | an entry less than 256 ticks ahead sits on the main slot the tick loop reaches exactly at its deadline tick and at no other tick of the coming turn; a deadline equal to the current tick waits the whole turn |
| Slots.CascadeSpoke | wheel.go:249-250 | the spoke `cascade` drains at level `L` lies within that level's 64 spokes |
| Slots.DepthFrom | wheel.go:248-257 | `cascade` goes on from one level to the next exactly while the index is zero and another level exists |
| Slots.CorrectedCascadeCollects | wheel.go:247-258 | with the offset `8 + 6L`, an entry placed on a cascade level is collected: at a tick after its placement and not after its deadline, the main index is 0, the cascade reaches the entry's level and drains exactly its spoke, and re-placing it lands on the main level or a strictly lower level |
| Slots.AsWrittenStrandsSpoke | wheel.go:249 | with the written offset `8 + 4L`, no cascade ever drains spoke 321, yet `addTimer` puts there an entry 16384 ticks ahead of a wheel at tick 0 |
| Slots.AsWrittenCascadeSpins | wheel.go:249-253 | with the written offset, at tick 16384 the cascade drains spoke 324 and `addTimer` pushes the entry it pops (deadline 65536, placed at tick 0) back onto spoke 324 |
| Slots.AsWrittenCollectsLevelZero | wheel.go:249 | at level 0 the written offset agrees with `8 + 6L`, so level-0 entries are collected in time by the code as written |
| Slots.LaterSub | wheel.go:215 | advancing the tick `uint32(nano / granularity) - curTick` times from `curTick` reaches the tick of `nano` |
| Slots.WrapTicks | wheel.go:215-220 | lists the ticks of the coming `n` at which the tick loop calls `cascade`, all with main index 0 |
| Slots.CascadeOncePerTurn | wheel.go:215-220 | over `n` ticks from `start`, the tick loop cascades `(start mod 256 + n) / 256` times: once per full turn of the main level |
| Jobs.FireSeqCounts | wheel.go:228-231 | as long as the count does not wrap, `k` firings raise the count by exactly `k` and keep the repeat number and interval |
| Jobs.RunsNumberTimes | wheel.go:228-232 | an entry with `number == N > 0` and count 0 is put back after each of its first `N - 1` firings and dropped after the `N`-th |
| Jobs.PersistNeverDropped | wheel.go:229-231 | an entry with `number == 0` is put back after every firing |
| Buckets.Remove | wheel.go:194 | `RemoveSelf` on a list: exactly the element leaves, and the others keep their order (the result is the list with the element's one position cut out); the list shrinks by one when it held the element once; a list without it is unchanged |
| Buckets.AgreePushSpoke | wheel.go:274 | pushing a detached entry onto the back of a spoke and pointing it there keeps lists and back-pointers in agreement |
| Buckets.AgreePushNow | wheel.go:150 | the same for pushing onto `doNow` |
| Buckets.AgreePopSpoke | wheel.go:252 | popping the front of a spoke and dropping its back-pointer keeps the agreement |
| Buckets.AgreePopNow | wheel.go:225 | the same for the front of `doNow` |
| Buckets.AgreeSplice | wheel.go:221 | moving a whole spoke onto the back of `doNow` and repointing its entries keeps the agreement, with no entry twice on `doNow` |
| Buckets.AgreeRemove | wheel.go:183 | removing an entry from the list its back-pointer names keeps the agreement |
| Timing.ReturningMembers | wheel.go:251-253 | what one pass over a spoke leaves on that spoke is exactly the entries of the pass that `addTimer` sends back to it |
| Timing.ReturningSpins | wheel.go:251-253 | a spoke left non-empty after one pass holds only entries that `addTimer` keeps returning to it, so `for spoke.Len() > 0` never ends |
| Timing.CascadeCollectsPlaced | wheel.go:249 | `Slots.CorrectedCascadeCollects` restated through `DrainedBy`, the drained-spoke predicate of the wheel: with the level offset `8 + 6L` in place of the written `8 + 4L`, an entry `addTimer` put on a cascade level is on a spoke that the cascade would drain at a tick after its placement and not after its deadline |
| Timing.AsWrittenCascadeStuck | wheel.go:249-253 | as-written half of the finding: a wheel at tick 0x4000 whose spoke 324 holds only an entry due at tick 0x10000, put there by `addTimer` at tick 0, has spoke 324 among those the written cascade drains, that spoke spins, and so the cascade at that tick never returns (`CascadeSpins`) |
| Timing.AsWrittenCascadeReturnsStuck | wheel.go:247-258 | as-written half of the finding, on the class: `Wheel.Cascade` on a valid wheel in that state returns `stuck` |
| Timing.DeadlinePassed | wheel.go:215-221 | an entry less than 256 ticks ahead sits on a main slot that the tick loop has passed once it has advanced as far as the deadline |
| Timing.SweptTick | wheel.go:215-222 | one more tick adds exactly the new tick's main slot to the slots whose entries are on `doNow` |
| Timing.DrainedPartStep | wheel.go:251-252 | popping the front of the spoke being drained and pushing it onto the back of its placement spoke handles one more entry of the drain: handled entries sit, in order, at the backs of their spokes, unhandled ones at the front of the drained spoke |
| Timing.CascadeKeepsMain | wheel.go:247-258 | a cascade moves no entry of `doNow` or of a main slot |
| Timing.PlacedOnMainSlot | wheel.go:264-265 | `addTimer` puts an entry on the main slot of the current tick only when its deadline is the current tick |
| Timing.TickHomeTicked | wheel.go:216-221 | one tick, cascade included, moves no entry of `doNow` and no entry of a main slot other than the new tick's, whose entries all go onto `doNow` |
| Timing.TickDueNow | wheel.go:216-221 | a tick never puts an entry on `doNow` early: an entry arrives there only from the new tick's main slot, or from the cascade when its deadline is that very tick |
| Timing.RunSwept | wheel.go:215-222 | over `n` ticks of the tick loop, every entry of `doNow` stays there, every entry on a main slot the loop passes ends on `doNow`, and every entry on a main slot it does not pass stays put |
| Timing.RequeuedStep | wheel.go:228-232 | firing the next entry of `doNow` appends it to the back of its placement spoke exactly when it continues, leaving every other spoke as it was |
| Timing.Wheel.constructor | wheel.go:56-70 | a new wheel has 512 empty spokes, an empty `doNow`, no entries, and the tick of `nowNano` as current tick |
| Timing.Wheel.Len | wheel.go:104-114 | the count summed spoke by spoke, then `doNow`, is the number of entries on the wheel |
| Timing.Wheel.SpokeFor | wheel.go:261-273 | the level-finding loop of `addTimer` computes the radix placement `Slots.PlaceSpoke` |
| Timing.Wheel.AddTimer | wheel.go:260-275 | the entry goes on the back of its placement spoke, every other spoke is unchanged, its back-pointer names that spoke, and the wheel holds one more entry |
| Timing.Wheel.Delete | wheel.go:192-197 | the element leaves the list it is on, if any, and nothing else changes; the count drops by one exactly when it was on a list |
| Timing.Wheel.Start | wheel.go:181-190 | the element is detached, its count reset, its deadline recomputed from `nowNano`, and it is placed by `addTimer`; the count rises only if it was detached |
| Timing.Wheel.NewJob | wheel.go:121-134 | a fresh element, on no list, with count and deadline zero, the given number, and the first given interval or else the wheel's default |
| Timing.Wheel.AddJob | wheel.go:142-153 | a new job whose deadline is one interval after `nowNano` goes onto `doNow` when that deadline is the current tick, otherwise onto its placement spoke; either way the wheel holds one more entry |
| Timing.Wheel.SpliceToDoNow | wheel.go:221 | the spoke's entries move in order onto the back of `doNow`, the spoke becomes empty, and the count is unchanged |
| Timing.Wheel.ReplaceFront | wheel.go:252 | the front entry of the spoke is popped and pushed onto its placement spoke, possibly the same one; nothing else moves |
| Timing.Wheel.DrainSpoke | wheel.go:251-253 | after one pass the spokes are `Drained`: each entry of the spoke, in order, is at the back of the spoke `addTimer` places it on, and only those placed back remain on the drained spoke; its back-pointer names that spoke and no other entry moved; `stuck` holds exactly when the spoke would spin forever |
| Timing.Wheel.Cascade | wheel.go:247-258 | with the level index read at the written offset `8 + 4L`, unless stuck the spokes become `CascadeUpTo`: level by level, each visited spoke's entries go, in order, onto the backs of their `addTimer` spokes; the back-pointers become `Recascaded` (drained entries re-placed, all others kept), and every drained entry left its spoke; `stuck` holds exactly when the source's cascade never returns (`CascadeSpins`: after the levels below it, some visited level's spoke keeps an entry that `addTimer` places back on it) |
| Timing.Wheel.Tick | wheel.go:216-221 | the tick rises by one (wrapping); `cascaded` holds exactly when the new main index is 0, and then the spokes are first cascaded (`Mid`); the new tick's main slot is emptied and its entries, in order, are appended to `doNow`; the back-pointers become `TickHome`; `stuck` holds exactly when the main index is 0 and that cascade never returns |
| Timing.Wheel.Advance | wheel.go:215-222 | unless stuck, the current tick becomes the tick of `nano` and the lists are those of `Run` over the passed ticks: at each tick its cascade when the main index is 0, then its main slot appended in FIFO order to `doNow`; the cascades that `Tick` reports fall exactly at the ticks of `Slots.WrapTicks`; `doNow` keeps its old entries at its front; `stuck` holds exactly when one of the passed ticks, in the state `Run` gives before it, never returns (`RunSpins`) |
| Timing.Wheel.FireFront | wheel.go:225-234 | the front of `doNow` is popped and its count raised; exactly when it continues, its deadline is set one interval after `nano` and it is appended to the back of its placement spoke, every other spoke unchanged; otherwise no spoke changes; its run is logged |
| Timing.Wheel.Drain | wheel.go:224-236 | every entry of `doNow` fires once, in order; `doNow` ends empty; each spoke gains at its back, in firing order, the fired entries that continue and are placed on it (`Requeued`); every other entry is untouched; the count drops by the entries dropped |
| Timing.Wheel.Wake | wheel.go:211-237 | unless a cascade is stuck, the wheel ends at the tick of `nano` with `doNow` empty; the runs logged are exactly the `doNow` that the tick loop built (`Run`), each once and in order, so every entry that was on `doNow` or on a main slot the loop passed has run; the spokes are that run's spokes with the continuing entries appended; each entry that ran has its record fired once (count raised, new deadline one interval after `nano`) and is back on the wheel exactly when it continues, while every other record is unchanged; `stuck` holds exactly when the tick loop of the source never ends (`RunSpins`), and then a cascade spoke spins |

## Left out

- `Run`, `HasRunning`, `Close`, and the worker goroutine's `select` on its timer and on the stop channel are not modelled. The same goes for the `running` flag, the read-write lock and the re-arming of the timer with `waitMs`. They are concurrency and time, not state logic. The model is one wake-up of the worker, `Timing.Wheel.Wake`, with the wake-up instant as a parameter.
- `entry.job.Run()` is recorded in the ghost log `fired`, and the job itself is not modelled. Go runs it with the lock released. Operations that other goroutines perform while it runs are not modelled.
- `time.Now()` becomes the parameter `nowNano`. `DefaultGranularity` and `DefaultInterval` are defined outside wheel.go and are not part of this model. They are constructor parameters, and the granularity is required to be positive.
- `Modify` has an empty body (a TODO) and returns the wheel unchanged, so there is nothing to model.
- `NewJobFunc` and `AddJobFunc` only forward to `NewJob` and `AddJob` with the caller's `number` and interval (`AddJobFunc` with exactly one interval). `AddOneShotJob`, `AddPersistJob`, `AddOneShotJobFunc` and `AddPersistJobFunc` forward to `AddJob` with a fixed `number`. `Timing.Wheel.NewJob` and `Timing.Wheel.AddJob` take `number` and the optional interval as parameters. The constants `OneShot` and `Persist` are defined outside wheel.go and are not part of this model.
- The list library `github.com/thinkgos/list` is not part of this model:
  - A list is a sequence of element identities.
  - `*Element` pointers are natural numbers handed out by `NewJob`.
  - The list an element is on is the map `home`.
  - `RemoveSelf` on an element that is on no list is taken to do nothing.
  - Elements shared between two wheels are not modelled.
- `Timing.Wheel.Cascade`: where the source's drain loop `for spoke.Len() > 0` would run forever, and only there, the method returns `stuck` and stops. `Timing.Wheel.Tick`, `Timing.Wheel.Advance` and `Timing.Wheel.Wake` then stop as well. The rest of that wake-up is not modelled.
- `Timing.Wheel.Len`: Go's `int` result cannot overflow in practice, because the count is bounded by memory. The model returns an unbounded `nat`.
- Ticks.NextTimeoutIsCeiling: stated only for a non-negative sum `nowNano + timeout`. For a negative sum, Go's truncating division is not a ceiling: with `nowNano + timeout == -15` and granularity 10, wheel.go:117 computes `-6 / 10 == 0`, while the ceiling is -1. `Ticks.NextTimeout` models the truncation for every sign.
- `Jobs.FireSeqCounts`: the count is a `uint32` that wraps after 2^32 firings. The lemma assumes no wrap. `Jobs.Fire` models the wrap itself.

## Findings

| source | as written | input that shows it | evidently intended | confidence | as-written member | corrected member |
|---|---|---|---|---|---|---|
| wheel.go:249 | `cascade` reads level `L`'s index at bit offset `tvRBits + level*tvNNum` (8 + 4L) | (a) a wheel at tick 0, entry deadline 16384: `addTimer` puts it on spoke 321, which no cascade ever drains; (b) a wheel at tick 0, entry deadline 65536 on spoke 324: at tick 16384 the cascade drains spoke 324 and `addTimer` puts the entry back on it, so the drain loop never ends | `tvRBits + level*tvNBits` (8 + 6L), the digit `addTimer` places by (wheel.go:272) | high; not executed | Slots.AsWrittenStrandsSpoke, Slots.AsWrittenCascadeSpins, Timing.AsWrittenCascadeStuck, Timing.AsWrittenCascadeReturnsStuck | Slots.CorrectedCascadeCollects |
