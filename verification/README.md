# Budget ledger verification

A Dafny model of a budget broker for provider quotas, with proofs about it. Callers ask a *warden* for units of a budget;
a *policy* decides from the current usage how much may be spent; a *store* keeps, for every budget window, two counters
(`committed` and `reserved`) beside the reservations they summarise. Reservations expire, are committed or refunded, and
may carry an idempotency key.

| file | what it holds |
|---|---|
| `Prelude.dfy`, `Totals.dfy`, `Doubles.dfy` | machine integers, wrapper types, sums over finite maps, rounding to doubles |
| `Contract.dfy`, `Accounts.dfy` | the store contract; books, expiry, settlement and conservation, counter by counter |
| `Memory.dfy`, `LedgerRuns.dfy` | the in-memory store as a class over its maps; whole runs of it |
| `Policies.dfy`, `Pacing.dfy` | policy validation and selection; the evaluation arithmetic |
| `Broker.dfy`, `Answers.dfy` | the warden over the in-memory store, one call at a time; what its answers tell a caller |
| `Spending.dfy` | what many callers of `reserve` can do to one counter, whatever the store |
| `Protocol.dfy`, `Guarantees.dfy` | callers interleaving the two steps of `reserve` on the in-memory store; what still holds, and for which policies |
| `Sql.dfy`, `SqlRuns.dfy`, `SqlProtocol.dfy` | SQLite and PostgreSQL with lazy expiry and rollback; runs at any timestamps; callers interleaving their transactions |
| `Simulation.dfy` | agreement of the SQL stores with the in-memory store |
| `Redis.dfy`, `RedisRuns.dfy`, `RedisExact.dfy` | the Lua scripts over a sorted-set index, computing in doubles; any interleaving of scripts; their integer forms below 2^53 |
| `RedisAgreement.dfy` | agreement of Redis with the in-memory store |
| `RedisProtocol.dfy`, `RedisCrowds.dfy`, `RedisGuarantees.dfy` | the broker protocol over Redis, callers interleaving every single script |
| `Partings.dfy` | runs from empty stores on which the backends part |
| `Keys.dfy`, `Windows.dfy` | the compact key encoding; fixed windows |

The stores and the warden are classes whose methods change their fields in place; each method is proved against a
function on the abstract state, and the theorems are about that function. A lock-held section, an SQL transaction and a
Lua script are one atomic step each. The clock, the time zone and the window bounds are parameters.

## What the proofs found

Each of these is proved as an exact condition, with a concrete input or run on the failing side.

- A hard limit of `u64::MAX` defeats the saturating guard at `src/store/memory.rs:50`: it can never deny, so the whole
  budget is granted again and again and the counters no longer equal the ledger. Conservation and the hard limit of a
  policy hold over all runs exactly when its limit is below `u64::MAX`, whatever the other policies (`ConservationExact`,
  `HardLimitExact`, `AllFaithfulExactly`). Pacing goes with them: without a minimum it holds over all runs exactly when
  the limit is below `u64::MAX` or the emergency reserve is the whole limit (`PacingExact`), and otherwise a run of four
  calls puts twice the paced limit out (`OutpacedWitness`). The same value makes the unchecked addition at
  `src/pacing/evaluate.rs:125` wrap (modelled as a release build does), and then a request can be allowed that would be
  denied with less usage (`MonotoneExact`).
- The Redis guard at `src/store/redis_store.rs:215` adds in doubles what `HINCRBY` adds in integers. A limit is respected
  under every interleaving of scripts exactly when it is below 2^53 (`RedisRuns.LimitsExact`), and so is a policy's hard
  limit under every interleaving of callers (`RedisGuarantees.HardLimitExact`). At 2^53 two callers are enough: 2^53 units
  and one more that rounding loses. From 2^54 on, each further unit is lost (`Overrun`, `OverrunWitness`).
- The limit handed to the store leaves out `ReserveCapacity` units and the `PreserveForWindow` minimum
  (`src/broker.rs:117-143`). Without interleaving both are kept free; two callers that evaluate before either submits can
  spend into them. `IsolationExact` says for which policies no interleaving can do that, in memory and on Redis alike.
- `safe_to_spend_now` from a usage query over-reports under a minimum above the emergency reserve, and under
  `ReserveCapacity` for a priority above normal (`SafeToSpendExact`, and `QueryAnswersExactly` for the two calls together).
- A retry under the idempotency key of a refunded or expired reservation passes `authorize` but not `reserve`: the
  in-memory store denies it after the evaluation passed. `reserve` allows what `authorize` allows if and only if the
  key is not dead in this way (`ReserveAllowsExactly`, with a run in `BrokerParts`).
- In the SQL stores, reusing such a key makes the insert fail, and the rollback takes the transaction's own cleanup with
  it. A reservation that had just been expired is active again and is replayed as allowed, past its expiry
  (`DeadKeyAnswer`; two calls on an empty database do it, `SqlReplaysPastExpiry`). Apart from such reuse the SQL stores
  agree with the in-memory store on every run (`Simulation.RunAgrees`).
- Redis grants such a key anew (`RedisGrantsAnew`). Apart from that it answers every run as the in-memory store would at
  instants rounded down to seconds, for limits below 2^53 (`RedisAgrees`); within a second the two differ
  (`PartWithinSecond`).
- The compact key tells its budget from every other if and only if no component holds a colon and the unit is a custom
  one not named like a built-in unit (`UnsharedExactly`). `CompactCollides` has a pair for each reason.
- Fixed windows with a fraction of a second in their duration overlap (`TilingExact`).

## Model

| member | source | states |
|---|---|---|
| Accounts.CleanupComposes | src/store/memory.rs:219-237 | cleaning up at one instant and then at another is one cleanup at the later of the two, on any books whatsoever |
| Accounts.ExpireStep | src/store/memory.rs:229-236 | a loop that has expired some records and turns to any other one reaches the state that has no memory of the order |
| Accounts.CleanupAdvances | src/store/memory.rs:219-237 | cleanup expires exactly the active records whose expiry has come and alters nothing else about any record |
| Accounts.CleanupConserves | src/store/memory.rs:229-236 | cleanup keeps the counters equal to the ledger sums, leaves committed units alone and never adds reserved ones |
| Accounts.NothingLeaks | src/store/memory.rs:219-237 | once every open reservation has fallen due, cleanup leaves committed units and no reserved ones |
| Accounts.GrantConserves | src/store/memory.rs:54-69 | a grant under an unused id keeps the counters equal to the ledger sums |
| Accounts.SettleConserves | src/store/memory.rs:96-101 | a commit or refund of an open reservation keeps the counters equal to the ledger sums |
| Memory.MemoryStore.ReserveIfAllowed | src/store/memory.rs:30-75 | in-place reserve: refused input first, then cleanup, replay, guard, id, grant; full new state and answer |
| Memory.MemoryStore.Commit | src/store/memory.rs:77-104 | in-place commit after cleanup, with every error and replay case; full new state and answer |
| Memory.MemoryStore.Refund | src/store/memory.rs:106-132 | in-place refund after cleanup, with every error and replay case; full new state and answer |
| Memory.MemoryStore.ReadUsage | src/store/memory.rs:134-143 | usage query: the state is only cleaned, the answer is the counter afterwards |
| Memory.MemoryStore.CleanupExpired | src/store/memory.rs:219-237 | the loop, in any order of ids, ends in the books with all due records expired at once |
| Memory.MemoryStore.NextReservationId | src/store/memory.rs:180-186 | ids count up by one and stop with an error at `u64::MAX` |
| Memory.MemoryStore.UsageForCounter | src/store/memory.rs:188-194 | a counter that is not there reads as zero |
| Memory.MemoryStore.ReplayExistingReservation | src/store/memory.rs:196-217 | a replay is allowed exactly for an active or committed record, with that record's expiry |
| LedgerRuns.GuardExact | src/store/memory.rs:49-59 | while a counter holds less than `u64::MAX`, the saturating guard is the integer guard and the grant it admits does not saturate |
| LedgerRuns.SettleExact | src/store/memory.rs:91-97 | a settlement finds its counter, and neither subtraction nor addition saturates on a counter that is its ledger sums |
| LedgerRuns.StepSound | src/store/memory.rs:30-143 | with limits below `u64::MAX` every operation keeps conservation, the bound on usage and ids within 1..next_id |
| LedgerRuns.RunShaped | src/store/memory.rs:30-143 | over any run, for any limits, only active records change status, terms are fixed, ids stay within 1..next_id and idempotency entries point to their records |
| LedgerRuns.RunTidy | src/store/memory.rs:30-143 | over any run a counter whose own requests carry limits below `u64::MAX` stays equal to its ledger sums and within those limits, whatever the requests for other counters carry |
| LedgerRuns.FirstSettlementWins | src/store/memory.rs:77-132 | the first commit or refund in time decides the status for good, whatever calls follow and whatever the limits; from expiry on it is refused for good |
| LedgerRuns.SettlementMovesUnits | src/store/memory.rs:91-101 | and moves exactly the reserved units: out of reserved, and into committed for a commit |
| LedgerRuns.OnlyOpenSettles | src/store/memory.rs:81-87 | any other settlement is answered by the status of the reservation and changes nothing but the cleanup |
| LedgerRuns.InputRefusedExactly | src/store/contract.rs:225-243 | which requests are refused as invalid, for which reason first, before anything is cleaned up |
| LedgerRuns.ConservationExact | src/store/memory.rs:49-60 | counters equal ledger sums on every run if and only if no effective limit reaches `u64::MAX` |
| LedgerRuns.OverflowWitness | src/store/memory.rs:50-58 | at that limit two requests for everything are both granted while the counter saturates |
| LedgerRuns.UnitsAccounted | src/store/memory.rs:30-132 | the units granted over a run are its committed and reserved counters plus refunded and expired units |
| LedgerRuns.AtMostOneGrant | src/store/memory.rs:40-69 | a run makes at most one reservation per counter and idempotency key, and none once there is one |
| LedgerRuns.ReplayAfterRun | src/store/memory.rs:40-47 | after a grant and any further run, the same key changes nothing but the cleanup and gets the first id and expiry back while that reservation lives, else a denial |
| LedgerRuns.DeadKeyDeniedForever | src/store/memory.rs:213-215 | once a key's reservation is refunded or expired the key is denied after any run |
| Policies.ValidExactly | src/policy.rs:344-382 | which numbers a policy may be built with, strategy by strategy |
| Policies.FindSelects | src/broker.rs:348-353 | a key gets a policy if and only if setting the key's components to some policy's exact values gives the key back; it is then a policy with the most exact components, and the last of those |
| Policies.FindAlone | src/key.rs:117-122 | a policy alone is found by exactly the keys that have its provider and its exact domain, resource and subject |
| Policies.FindOfTwo | src/broker.rs:348-353 | of two policies that a key finds alone, the one exact about strictly more wins in either order, and of two exact about equally many components, the same or different ones, the later wins |
| Policies.NameIdentifies | src/broker.rs:332-346 | unique names make the name in a store key determine the policy and so the hard limit |
| Pacing.PacedLimitExact | src/pacing/evaluate.rs:178-203 | with validated percentages every clamp is exact: for all windows and instants the limit is the hard limit's share for the whole milliseconds passed since the start out of those between start and end, plus the allowance, capped by what the emergency reserve leaves; before the start only the allowance counts |
| Pacing.ProductsFit | src/pacing/evaluate.rs:187-195 | the products fit 128 bits for every elapsed time that fits 64 |
| Pacing.PacedLimitMonotone | src/pacing/evaluate.rs:178-191 | the paced limit never falls as time passes |
| Pacing.PacedLimitAtEnd | src/pacing/evaluate.rs:178-191 | from the window's end on, only the emergency reserve is held back |
| Pacing.AllowedExactly | src/pacing/evaluate.rs:70-172 | a request passes if and only if used plus amount is within one integer threshold of its strategy and priority |
| Pacing.CapacityKeptFrom | src/priority.rs:4-14 | reserved capacity is kept from exactly the priorities listed below each one it can be reserved for: a request passes if and only if used plus amount is within the limit less the units kept from it |
| Pacing.DenialNamesFirstBound | src/pacing/evaluate.rs:78-170 | which denial is given: the first of hard limit, kept capacity, pace and minimum that the total passes; running ahead of pace is flagged exactly with the pace denial |
| Pacing.EffectiveLimitCovers | src/pacing/evaluate.rs:88-169 | an allowed request fits the limit handed to the store, which is the paced or the hard limit |
| Pacing.EvaluationExact | src/pacing/evaluate.rs:78-170 | the limit every evaluation names and what it calls safe to spend: nothing at the hard limit, else what is left below the bound that decided |
| Pacing.ReservedRemainingExact | src/pacing/evaluate.rs:78-170 | the reserved units every evaluation reports, denial by denial |
| Pacing.MonotoneExact | src/pacing/evaluate.rs:70-172 | less used, a smaller amount, a higher priority or a later instant never turns an allowed request down, if and only if the policy is not exposed to the wrapping addition |
| Pacing.SafeToSpendExact | src/pacing/evaluate.rs:88-169 | for which policies a positive amount is allowed if and only if it is at most the reported number |
| Pacing.SafeToSpendBoundsExactly | src/pacing/evaluate.rs:88-169 | nothing above the reported number is allowed, if and only if the policy stops normal requests short of `u64::MAX` |
| Broker.BudgetWarden.Authorize | src/broker.rs:57-99 | reads usage, evaluates, reserves nothing; the store is only cleaned |
| Broker.BudgetWarden.Reserve | src/broker.rs:101-193 | the two store calls in order, with every denial and store error; full new store state and answer |
| Broker.BudgetWarden.Usage | src/broker.rs:195-224 | the snapshot of a usage query at amount zero and normal priority |
| Broker.StoreGrants | src/broker.rs:131-171 | a request that passed evaluation on the current usage passes validation and guard and gets the next id |
| Broker.ReserveAllowsExactly | src/broker.rs:101-193 | without interleaving and with ids left, `reserve` allows if and only if `authorize` does and the key is not that of a dead reservation under this counter; which id and expiry it returns; the denial after the store call is reached for dead keys only, and any other refusal is the one `authorize` gives |
| Broker.AuthorizeReserveAgree | src/broker.rs:57-193 | under a key not yet used for this counter, whatever it was used for elsewhere, `reserve` allows exactly what `authorize` allows, on the next id |
| Broker.UsageShowsReserve | src/broker.rs:145-224 | the usage that an allowed `reserve` reports, and a usage query right after it, is what `authorize` saw plus the amount, or just that for a replay |
| Answers.RefusedEarly | src/broker.rs:58-61 | no policy and another unit are the only ways not to be evaluated, the same for `authorize` and `reserve`, and leave the store untouched |
| Answers.AuthorizeShows | src/broker.rs:63-98 | the whole answer of `authorize`: policy name, key, hard limit and window of the policy found, the request and the call, the counter as the store holds it, the evaluation's decision and reason, and what is left below the bound that the reason names |
| Answers.ReserveShows | src/broker.rs:145-192 | the snapshot of `reserve`: the same budget, limit and window, the counter as the store call left it, and, if allowed, what is left below the limit the request was held to |
| Answers.SubmittedTerms | src/broker.rs:131-143 | the store is asked for the request's own terms under the policy's name, unit and hard limit, and the paced limit or the hard limit |
| Answers.FailsOpenExactly | src/broker.rs:144-149 | when the store has no ids left, a request that passed is let through on an unrecorded preview of one second if and only if its policy fails open, and gets the store's error otherwise |
| Answers.QueryRefused | src/broker.rs:196-198 | a usage query fails exactly when no policy governs the key, without touching the store |
| Answers.QueryShows | src/broker.rs:195-224 | the snapshot of a usage query: budget, limit, window and counter, evaluated for nothing at normal priority; the store is only cleaned |
| Answers.QueryAnswersExactly | src/broker.rs:195-224 | right after a usage query `authorize` allows a normal request if and only if its amount is within the number reported, on every ledger and at every instant, exactly for the listed policies |
| Answers.QueryBounds | src/broker.rs:195-224 | and never allows more than it, for the policies that stop normal requests short of `u64::MAX` |
| Protocol.ReserveIsTwoSteps | src/broker.rs:101-143 | the two protocol steps played back to back are the broker's reserve |
| Protocol.PlayIsRun | src/broker.rs:107-143 | whatever callers play is a run of the store's own operations, so all that holds on every run holds in every play; the clock is the latest tick |
| Spending.OutstandingSplits | src/store/contract.rs:119-123 | a counter's units are those granted below a priority plus those granted from it on |
| Protocol.PlayInv | src/broker.rs:107-150 | any interleaving of stale asks, submits, settlements, queries and ticks keeps a counter sound, its usage within the hard limit and its non-critical units within the pace, if the policies of that counter have limits below `u64::MAX` |
| Guarantees.PacingHolds | src/pacing/evaluate.rs:113-121 | for a policy with a limit below `u64::MAX`, beside any others: after any interleaved run and at every later instant, live non-critical units are within the integer pacing formula and the emergency-reserve cap |
| Guarantees.PacingExact | src/pacing/evaluate.rs:113-121 | without a minimum, they are so over all runs if and only if the limit is below `u64::MAX` or the emergency reserve is the whole limit |
| Guarantees.OutpacedWitness | src/store/memory.rs:50-58 | for every other such policy, a run after which exactly twice the paced limit is outstanding below critical |
| Guarantees.CriticalPasses | src/pacing/evaluate.rs:90-100 | under any interleaving a critical request that the emergency reserve of a policy below `u64::MAX` still covers passes evaluation |
| Guarantees.CriticalGranted | src/store/memory.rs:49-74 | and the store grants it on the next id with its own terms, however stale the evaluation |
| Guarantees.HardLimitExact | src/broker.rs:107-150 | under every interleaving a policy's counters equal the ledger and stay within its hard limit, if and only if that limit is below `u64::MAX` or no key selects the policy |
| Guarantees.AllFaithfulExactly | src/broker.rs:107-150 | so all counters of a warden do, if and only if no policy that some key selects has `u64::MAX` as limit |
| Guarantees.UnboundedWitness | src/broker.rs:131-143 | a run of two critical callers that breaks conservation at such a limit, for any policy that has one |
| Spending.LevelExact | src/pacing/evaluate.rs:102-158 | the priorities that each strategy keeps capacity from, one by one, which is what isolation is about |
| Guarantees.SequentialIsolation | src/pacing/evaluate.rs:124-169 | over all runs of whole calls, reserved capacity and minimum remaining units of a policy below `u64::MAX` stay free of lower priorities |
| Guarantees.IsolationExact | src/broker.rs:117-143 | over all interleavings they do so if and only if the policy has one of the listed shapes |
| Guarantees.InterleavingWitness | src/broker.rs:117-143 | for every other policy, a run of two callers that passes the cap by one unit |
| Sql.SqlStore.ReserveIfAllowed | src/store/sqlite.rs:56-151 | the transaction with cleanup, replay query, guarded update, insert, rollback and retry; full new tables and answer |
| Sql.SqlStore.RunTransaction | src/store/postgres.rs:68-151 | the same after the cleanup, for the dialect whose failed insert keeps its sequence number |
| Sql.SqlStore.FindExisting | src/store/sqlite.rs:175-205 | the replay query finds the one live row under the key if there is one |
| Sql.SqlStore.CleanupExpired | src/store/sqlite.rs:227-264 | the row loop, in any order, ends in the tables with all due rows expired at once |
| Sql.SqlStore.FinishReservation | src/store/sqlite.rs:294-378 | commit and refund that expire only the row they touch; full new tables and answer |
| Sql.SqlStore.ReadUsage | src/store/postgres.rs:162-173 | usage query: cleaned tables, counter row or zero |
| SqlRuns.SqlRunKeepsRows | src/store/sqlite.rs:294-378 | over any SQL run at any timestamps rows stay under their keys and terms, and only active rows change status |
| SqlRuns.SqlInsertsOnce | src/store/sqlite.rs:68-143 | over any SQL run a counter and key get at most one row, and none once they have one |
| SqlRuns.SqlConserves | src/store/sqlite.rs:56-172 | from an empty database, over any run at any timestamps, running backwards included: a counter is its ledger sums and within the limits handed in for it, lazy expiry and rollbacks notwithstanding |
| SqlRuns.SqlRefusesExactly | src/store/sqlite.rs:60-63 | which requests the SQL stores refuse without a transaction: invalid ones and those beyond signed 64-bit integers |
| SqlRuns.SqlSettlesOne | src/store/sqlite.rs:294-378 | a settlement of an open row changes that row and its counter alone: expired with its units freed from its expiry on, committed or refunded before |
| SqlRuns.SqlSettlesNothing | src/store/sqlite.rs:294-330 | any other settlement changes nothing, and which answer it gets |
| SqlProtocol.PlayIsRun | src/store/sqlite.rs:56-172 | what callers play on the SQL stores is a run of their transactions |
| SqlProtocol.AskExactly | src/broker.rs:110-127 | a caller that reads the usage at any clock reading up to now is pending exactly if it passes on that usage |
| SqlProtocol.PlayInv | src/store/postgres.rs:56-152 | any interleaving of all callers' SQL transactions on stale evaluations keeps a counter sound, within its hard limit and its non-critical units within the pace |
| SqlProtocol.HardLimitHolds | src/store/sqlite.rs:101-127 | so a counter is its ledger sums and within the hard limit of its policy, for every limit: the SQL guard does not saturate and refuses limits beyond 64-bit signed integers |
| SqlProtocol.PacingHolds | src/pacing/evaluate.rs:113-121 | and live non-critical units stay within the integer pacing formula and the emergency-reserve cap, from then on |
| SqlProtocol.CriticalGranted | src/pacing/evaluate.rs:90-100 | and a pending critical request that the emergency reserve still covers gets its row on the next id, with its own terms |
| Simulation.CleanupMirrors | src/store/sqlite.rs:227-264 | after both clean up at the same instant, no earlier than any before, rows and records agree in every field |
| Simulation.SameUsage | src/store/sqlite.rs:266-286 | then both report the same usage for every window |
| Simulation.ReserveAgrees | src/store/sqlite.rs:56-151 | a reserve is answered alike up to ids if and only if it does not reuse a dead key that would fit, and the stores stay matched either way |
| Simulation.FinishAgrees | src/store/sqlite.rs:294-378 | commit and refund of one reservation, or of ids that neither store knows, are answered alike whatever either store still has due |
| Simulation.StepAgrees | src/store/sqlite.rs:56-172 | one operation of any kind keeps the stores matched and is answered alike if and only if it reuses no dead key |
| Simulation.RunAgrees | src/store/postgres.rs:292-376 | over whole runs the stores stay matched and agree on every answer if and only if no operation reuses a dead key that would fit |
| Simulation.UsageAgrees | src/store/postgres.rs:264-284 | after any run from empty stores both report the same usage at every later instant |
| Simulation.DeadKeyAnswer | src/store/sqlite.rs:129-143 | what the SQL stores answer otherwise: an error, or a reservation past its expiry whose expiry was rolled back |
| Redis.RedisServer.CleanupScript | src/store/redis_store.rs:234-251 | the loop over the range closes its members one after the other, in the order it reports, and takes them out of the set |
| Redis.RedisServer.ReserveScript | src/store/redis_store.rs:184-232 | the reserve script, with replay, dropped idempotency fields, the guard in doubles and the grant in integers |
| Redis.RedisServer.FinishScript | src/store/redis_store.rs:253-287 | the finish script with its four result codes |
| Redis.RedisServer.UsageScript | src/store/redis_store.rs:289-293 | the counter, absent fields reading as zero |
| Redis.RedisServer.ReserveIfAllowed | src/store/redis_store.rs:39-84 | the store call: input checks, cleanup script, reserve script |
| Redis.RedisServer.FinishReservation | src/store/redis_store.rs:111-136 | the store call: result codes turned into answers |
| Redis.RangeIsFullScan | src/store/redis_store.rs:237-249 | the range query finds exactly the due active reservations |
| Doubles.DoubleNearest | src/store/redis_store.rs:213-222 | every number a script computes is a whole number of at most 53 bits times a power of two, at most half a unit off, and even when halfway |
| Doubles.DoubleMonotone | src/store/redis_store.rs:215 | rounding a whole number to the nearest double, ties to even, keeps the order |
| RedisRuns.RedisRefusesExactly | src/store/redis_store.rs:44-49 | which requests Redis refuses before its first script |
| RedisRuns.TimestampFloors | src/store/redis_store.rs:64-66 | instants reach the scripts as whole seconds rounded down, before the epoch too |
| RedisRuns.RedisSettlesNothing | src/store/redis_store.rs:111-136 | a settlement of anything but an open reservation changes nothing, and which answer it gets |
| RedisRuns.DanglingDropped | src/store/redis_store.rs:207-231 | an idempotency field whose reservation hash is gone is dropped, or points to the new reservation |
| RedisRuns.IndexAndKeys | src/store/redis_store.rs:184-287 | from an empty server, over any interleaving of scripts with any numbers: the index holds exactly the active reservations and a key has at most one active or committed reservation |
| RedisRuns.ScriptsSafe | src/store/redis_store.rs:55-69 | a counter whose own requests carry limits below 2^53 is its ledger sums and within them, over any interleaving and whatever amounts are asked for |
| RedisRuns.Overrun | src/store/redis_store.rs:213-221 | for every limit from 2^53 on, amounts of at most 2^53 that pass the guard one after the other and add up to one more than the limit |
| RedisRuns.LimitsExact | src/store/redis_store.rs:213-221 | a limit below the largest signed 64-bit integer is respected over all interleavings of scripts if and only if it is below 2^53 |
| RedisExact.CleanupExact | src/store/redis_store.rs:234-251 | while counters hold less than 2^53, the cleanup loop in any order expires its whole range at once |
| RedisExact.ReserveExact | src/store/redis_store.rs:213-231 | and below that limit the reserve script computes in integers, the counter it reports after a grant included |
| RedisAgreement.NanosCleanup | src/store/redis_store.rs:138-149 | cleaning up at a whole second is the same on the second and on the nanosecond time line |
| RedisAgreement.CloseThenClean | src/store/redis_store.rs:279-286 | settling an open reservation commutes with expiring what is due |
| RedisAgreement.ExpireThenClean | src/store/redis_store.rs:272-278 | expiring a due reservation early leaves the cleanup the same books to arrive at |
| RedisAgreement.RunAgrees | src/store/redis_store.rs:39-136 | from twin states, on any non-decreasing instants and with limits below 2^53, Redis gives the answers, ids included, that the in-memory ledger gives at instants rounded down to seconds, if and only if no operation of the rounded run revives a dead key |
| RedisAgreement.RedisAgrees | src/store/redis_store.rs:39-136 | the same from empty stores, at any starting instant |
| RedisAgreement.RoundedRunIsLedgerRun | src/store/redis_store.rs:55-66 | where valid requests outlive the second they were made in, the rounded run is the in-memory store's own run on the rounded operations |
| RedisAgreement.WholeSecondsAgree | src/store/redis_store.rs:39-136 | on whole seconds Redis and the in-memory store themselves give the same answers, if and only if no dead key is revived |
| RedisProtocol.ReserveIsFourScripts | src/broker.rs:107-143 | the usage call and the reserve call of one caller are four protocol steps played back to back |
| RedisProtocol.PlayIsRun | src/store/redis_store.rs:55-69 | what callers play on Redis is a run of its scripts |
| RedisProtocol.AskExactly | src/broker.rs:110-127 | the same for the usage script |
| RedisProtocol.PlayInv | src/store/redis_store.rs:55-69 | any interleaving of the cleanup, usage, reserve and finish scripts of all callers, on stale evaluations, keeps a counter sound, within its hard limit and its non-critical units within the pace, if the policies of that counter have limits below 2^53 |
| RedisGuarantees.HardLimitExact | src/store/redis_store.rs:213-231 | under every such interleaving active and committed units stay within a policy's hard limit, if and only if it is below 2^53, for limits below the largest signed 64-bit integer |
| RedisGuarantees.OverrunWitness | src/store/redis_store.rs:213-221 | for every other limit, a run of critical callers that all ask before any submits and get one unit more |
| RedisGuarantees.PacingHolds | src/pacing/evaluate.rs:113-121 | for a limit below 2^53, live non-critical units stay within the integer pacing formula and the emergency-reserve cap |
| RedisGuarantees.CriticalPasses | src/pacing/evaluate.rs:90-100 | under any interleaving of scripts a critical request that the emergency reserve of such a policy still covers passes evaluation |
| RedisGuarantees.CriticalGranted | src/pacing/evaluate.rs:90-100 | and the reserve script grants it while it is pending and covered, on the next id with its own terms |
| RedisGuarantees.SequentialIsolation | src/pacing/evaluate.rs:124-169 | over all runs of whole calls on Redis, reserved capacity and minimum remaining units stay free of lower priorities |
| RedisGuarantees.IsolationExact | src/broker.rs:117-143 | over all interleavings of scripts they do so if and only if the policy has one of the listed shapes |
| RedisGuarantees.InterleavingWitness | src/broker.rs:117-143 | for every other policy, a run of two callers that passes the cap by one unit |
| Partings.LedgerDenies | src/store/memory.rs:213-215 | for any budget and key, two calls under the key, the second at the expiry of the first: the in-memory store denies it |
| Partings.BrokerParts | src/broker.rs:125-171 | through the broker: at the second call `authorize` allows and `reserve` does not |
| Partings.SqlReplaysPastExpiry | src/store/sqlite.rs:129-141 | the same two calls on an empty database of either dialect: allowed at the expiry, on a row that is active and due |
| Partings.SqlParts | src/store/postgres.rs:130-141 | so the run from empty stores is admissible and the SQL stores do not agree with the ledger on it |
| Partings.SqlFailsAfterRefund | src/store/sqlite.rs:138-140 | with a refund in place of the expiry the SQL stores answer an error |
| Partings.RedisGrantsAnew | src/store/redis_store.rs:196-231 | the same two calls on an empty server: a second reservation, with id 2 |
| Partings.RedisParts | src/store/redis_store.rs:55-66 | so the run is admissible and on whole seconds, and Redis does not agree with the ledger on it |
| Partings.PartWithinSecond | src/store/redis_store.rs:64-66 | a reservation the ledger still holds, already released by Redis in the second of its expiry |
| Partings.PartAtTwo53 | src/store/redis_store.rs:213-221 | at a limit of 2^53 the in-memory store is full after 2^53 units and denies the next one, while Redis holds 2^53 + 1 |
| Keys.BuiltInNames | src/unit.rs:25-35 | which names belong to built-in units, and that a unit is read back from its name unless it is a custom one so named |
| Keys.CompactReadable | src/store/contract.rs:49-60 | splitting on colons reads a key back if and only if no part holds a colon and no custom unit is named like a built-in one |
| Keys.CompactInjective | src/store/contract.rs:49-60 | two such keys never share a compact form |
| Keys.UnsharedExactly | src/store/contract.rs:49-60 | a key shares its compact form with no other key at all, if and only if no part holds a colon and its unit is a custom one not named like a built-in unit |
| Keys.CompactCollides | src/unit.rs:25-35 | two different keys with one compact form, by a unit's name and by a colon |
| Windows.BoundsExactly | src/window.rs:86-94 | bounds exist exactly if the end is after the start, and a fixed window exactly for a positive duration |
| Windows.StartIsMultiple | src/window.rs:148-164 | a fixed window starts at the multiple of its whole seconds at or before the instant and lasts its duration |
| Windows.TilingExact | src/window.rs:148-164 | every instant is in its window and two windows are equal or disjoint, before the epoch too, if and only if the duration is whole seconds |

## Left out

- Async runtime, lock poisoning, pools, drivers, schema setup, telemetry, configuration files and builders; of the builders only the numeric checks of `src/policy.rs:344-382` are kept.
- Store failures other than the ones modelled: transport errors of the SQL and Redis drivers, and so the fail-open preview after a failed usage read; the preview after a failed reserve is modelled but is outside the ledger and outside every safety theorem.
- Percentages, reports, `recommended_action` and metadata; the denial without a policy carries no snapshot, since the source's is made of zeroes and the wall clock.
- Calendar windows and time zones; policies take window bounds with an end after the start. Rolling windows are computed as fixed ones (`src/window.rs:46`).
- Windows.FixedBounds: requires whole seconds or more, because for a positive duration below one second `src/window.rs:157` takes a remainder by zero; instants beyond chrono's range are not modelled.
- The protocol lets a caller use any instant up to the clock as its reading, and lets settlements and queries run at any instant, since the source takes them from a separate clock; this allows more runs than one clock would.
- Backends are keyed by the structured counter key; `Keys` says when their text key is as good. `Keys.UnsharedExactly` ranges over all store keys; `src/key.rs:59-64` refuses blank components, so a key's other reading may be one that cannot be built. Redis also rounds window bounds to seconds in its keys, so windows that differ by less share a counter.
- Redis eviction through `EXPIREAT` and `INCR` overflow: hashes stay, and ids have no end.
- Redis.RedisServer.ReserveScript: `HINCRBY` fails when a counter would pass the largest signed 64-bit integer, which is not modelled; `LimitsExact` and `HardLimitExact` therefore stop short of that limit. It may also refuse an amount of 10^17 or more, which Lua can write with an exponent; the amounts of the witnesses are at most 2^53.
- Redis.RedisServer.CleanupScript: Lua may write a reduced counter of 10^17 or more with an exponent, which a later `HINCRBY` refuses; the witnesses from 2^53 on close no reservation, and `IndexAndKeys` is about statuses and the index, which such a failure leaves as they are.
- RedisAgreement.RunAgrees: limits are below 2^53, where the stores begin to part (`Partings.PartAtTwo53`); amounts and finished ids fit 64-bit signed integers, which the store checks before its scripts and the in-memory store does not; no idempotency key is empty (built keys never are); one clock does not run backwards; and the ledger does not run out of ids.
- PostgreSQL's rounding of instants to microseconds, and the error its guard raises when the sum itself leaves 64 bits; with limits that fit, conserved counters stay below that.
- The lookup that follows a rollback is a transaction of its own; here nothing else runs between the two.
- Simulation.RunAgrees: amounts and limits fit 64-bit signed integers and row ids do not run out, as the stores check or fail otherwise.
- A broker-level promise of idempotency: the evaluation can deny a retry before the store is asked (`src/broker.rs:125-129`), and an allowed retry's handle carries the new amount; replay is stated for the stores.
