# Battle-royale ranking servers, in Dafny

This project models the game server of a small battle-royale toy written in Rust
(axum + tokio). At least 100 characters fight until one is left standing, and
each player learns their character's rank. The server comes in two forms, and
both share the same battle engine:

* the single-shot `/battle` handler (`src/main.rs`; `Server/src/single.rs` is
  the same program line for line). It gives the requested characters random
  stats, pads the roster with `NPC_i` fillers, runs one battle and answers
  with each client character's rank, final hp and winner flag;
* the timer-driven `/join` server (`Server/src/main.rs`). Each request
  joins the single open lobby; the first one opens it and spawns a finalizer
  task. When the deadline passes, the finalizer pads the lobby to 100
  characters, runs the battle, indexes the results by name and sends each
  waiting joiner one result over its private one-shot channel.

Modules, in the order the program builds on them:

| file | module | what it holds |
|---|---|---|
| `wrappers.dfy` | `Wrappers` | `Option` |
| `seqs.dfy` | `Seqs` | duplicate-freedom, permutations of 0..n-1, last occurrence |
| `characters.dfy` | `Characters` | `Character`, `BattleResult`, the capacity 100, draws from `gen_range`, decimal formatting |
| `slices.dfy` | `Slices` | `two_mut` and the write-back through its two views |
| `engine.dfy` | `Engine` | `run_battle`'s loop: living indices, pair choice, a hit, the fight, the death order |
| `single_shot.dfy` | `SingleShot` | `battle_handler`: roster, `index_to_rank`, the client report |
| `lobby.dfy` | `Lobby` | `join_handler`, `finalize_match`, the ranking of the server's `run_battle`, the name-keyed lookup, delivery and the registry invariant |

Modelling choices:

* **Randomness.** The random number generator is an oracle
  `Rolls = nat -> (nat, nat)`: step `n` of a loop consumes the pair `rolls(n)`.
  `gen_range(lo..hi)` is `lo + raw % (hi - lo)`. `GenRangeCovers` shows that
  every value of the range is reachable, so every behaviour of the program is
  some choice of oracle.
* **Picking the pair.** The attacker/defender choice re-draws the defender
  until it differs from the attacker. The model (`Engine.Pick`) takes the
  defender directly among the other living indices. `Engine.PickCovers`
  shows that every ordered pair of distinct living indices can be picked.
* **Termination.** The fight loop ends because each hit lowers the sum of
  the living characters' hp plus their count (`Engine.HitAccounting`).
* **Concurrency.** Each block that `join_handler` runs under the registry
  mutex, and `finalize_match` as a whole, is one transition of a
  `Lobby.Registry`. A one-shot channel is a ticket. The registry's `inbox`
  records every result sent to each ticket, so "each joiner gets exactly one
  answer" is a statement about how long that record is (`Lobby.Inv`).
  A finalizer that has been spawned but has not yet run is counted in
  `timers`, and a `Deadline` event fires one of them.
* **The name lookup.** The `HashMap` built from `(name, result)` pairs keeps
  the last pair inserted for each name (`Lobby.Lookup`). In the dispatch
  loop, each joiner in admission order removes its name's entry or gets
  the rank-999 sentinel (`Lobby.Dispatch`).

A property of the code, proved here: the server names fillers by their roster
position (`NPC_<position>`). A joiner that calls itself `NPC_<i>`, for a
position `i` that a filler takes, therefore shares its name with that filler.
The lookup keeps whichever of the two results ranks lower, so that joiner is
never told it won, even when it is the survivor
(`Lobby.FillerNameShadowsJoiner`). A joiner whose name nobody else in the
roster carries is sent its own result: its final hp, the winner flag exactly
when it survived, and the rank of its own place in the death order
(`Lobby.RepliesOwnResult`).

## Model

| member | source | states |
|---|---|---|
| `Characters.GenRange` | Server/src/main.rs:216-217 | a draw from `gen_range(lo..hi)` lies in [lo, hi) |
| `Characters.GenRangeCovers` | Server/src/main.rs:216-217 | every value of [lo, hi) is the draw of some raw random number |
| `Characters.NatToString` | Server/src/main.rs:215 | the rendering of an index in a filler's name is a non-empty string of digits, with a leading zero only for zero |
| `Characters.NatToStringRoundTrip` | src/main.rs:47 | reading the rendering back as a decimal numeral gives the number, so it is the number's decimal notation |
| `Characters.NatToStringInjective` | Server/src/main.rs:215 | different numbers render as different strings |
| `Slices.TwoMut` | Server/src/main.rs:61-75 | the two views obtained by splitting at the larger index are exactly slot i and slot j |
| `Slices.WriteBack` | Server/src/main.rs:100-109 | mutating through the two views changes slots i and j to the new values and leaves every other slot unchanged |
| `Slices.WriteBackIsDisjoint` | src/main.rs:56-70 | for distinct indices the write-back equals the two point updates applied in either order |
| `Engine.AliveIndices` | Server/src/main.rs:83-88 | the enumeration holds exactly the indices of living characters, in increasing order, and its length is the number alive |
| `Engine.Pick` | Server/src/main.rs:94-98 | attacker and defender are both living and are distinct |
| `Engine.PickCovers` | Server/src/main.rs:94-98 | every ordered pair of distinct living indices is chosen by some roll |
| `Engine.Hit` | Server/src/main.rs:100-109 | only the defender changes: it loses the attacker's atk when both are alive, and dies, recorded at the end of the death order, exactly when its hp falls to zero or below |
| `Engine.HitAccounting` | Server/src/main.rs:100-109 | a hit between two living characters strictly lowers the termination measure, and lowers the living count by one exactly when the defender dies |
| `Engine.Fight` | Server/src/main.rs:82-110 | the loop terminates with at most one character alive, and exactly one if any started alive; atk stays positive |
| `Engine.HitTracks` | Server/src/main.rs:102-108 | after a hit the death order still lists each dead character once, in range, and no one else |
| `Engine.HitKeepsHpPositive` | Server/src/main.rs:102-108 | a hit leaves every living character with positive hp |
| `Engine.FightTracks` | src/main.rs:76-104 | through the whole loop, names, atk and client flags are unchanged, no one revives, and the death order lists exactly the dead, once each |
| `Engine.FightKeepsHpPositive` | src/main.rs:76-104 | if every living character starts with positive hp, every living character ends with positive hp |
| `Engine.Battle` | src/main.rs:72-113 | the battle keeps the roster's names, atk and client flags, revives no one, leaves at most one alive, and returns a duplicate-free death order of valid indices |
| `Engine.BattleOrderIsPermutation` | Server/src/main.rs:112-117 | when everyone starts alive, the death order, survivor included, lists every index exactly once |
| `Engine.BattleSurvivorIsLast` | src/main.rs:106-110 | the last index of the death order is the one survivor, everyone else is dead, and the survivor's hp is positive when all hp started positive |
| `SingleShot.RandomCharacter` | src/main.rs:41-53 | a filler is named prefix + index, has hp in [50, 100] and atk in [20, 40], is alive and is not a client |
| `SingleShot.ClientCharacter` | src/main.rs:122-131 | a requested character keeps its name, draws the same stat ranges, is alive and is a client |
| `SingleShot.HandlerRoster` | src/main.rs:119-143 | the roster has max(k, 100) characters: the requested ones in request order, then fillers NPC_0, NPC_1, ... |
| `SingleShot.HandlerRosterShape` | Server/src/single.rs:119-143 | the roster is a legal battle input (all alive, positive atk and hp); the clients are exactly slots 0..k-1 and carry the requested names |
| `SingleShot.RankTableAppend` | src/main.rs:149-152 | recording one more death sets that index's rank to total - pos and leaves the rest of the table as it was |
| `SingleShot.WriteRanksMeetsTable` | src/main.rs:148-152 | the rank-writing loop completes exactly when no position exceeds the total and every recorded index is a slot of the table, and it then yields the reference rank table |
| `SingleShot.IndexToRank` | src/main.rs:148-152 | the table is produced exactly when the loop completes (no position past the total, where `total - pos` would underflow, and no write out of bounds), and it then equals the reference table: the rank of an index is total minus its last position in the death order, 0 if never recorded |
| `SingleShot.RankLocates` | src/main.rs:148-152 | for a permutation death order, the rank r of index i lies in 1..total and i is the index recorded at position total - r |
| `SingleShot.RanksAreDense` | Server/src/single.rs:148-152 | for a death order that is a permutation, position p gives rank total - p, every rank lies in 1..total, ranks are distinct, and the last index gets rank 1 |
| `SingleShot.ClientResults` | src/main.rs:154-163 | one result per client character |
| `SingleShot.ClientResultsReport` | src/main.rs:154-163 | from a dense rank table in which exactly the living hold rank 1, client i keeps its name and final hp and gets rank `ranks[i]`, ranks are distinct and in 1..total, and the winner flag is set exactly when client i is alive, which is exactly rank 1, with positive hp |
| `SingleShot.SurvivorHoldsRankOne` | src/main.rs:146-152 | after a battle the rank table is dense and rank 1 belongs exactly to the living character |
| `SingleShot.BattleReport` | src/main.rs:146-163 | the ranking never panics; client i's entry carries its name, its final hp, the winner flag exactly when it survived, and the rank total - p where p is its position in the death order; ranks are distinct and in 1..total and only rank 1, held by a survivor with positive hp, wins |
| `SingleShot.BattleHandler` | src/main.rs:116-169 | the reply counts max(k, 100) characters and has one result per requested name, in request order |
| `SingleShot.HandlerReportsOwnOutcome` | src/main.rs:145-168 | in the handler's reply, client i's entry is its own outcome in the battle: its final hp, the winner flag exactly when it survived, and a rank r for which i is the index recorded at position total - r |
| `SingleShot.HandlerRanksClients` | Server/src/single.rs:116-169 | every client gets a rank in 1..total distinct from every other client's, and is the winner exactly at rank 1, with positive hp, so at most one client wins |
| `Lobby.ServerNpc` | Server/src/main.rs:213-220 | a filler is named NPC_ + its roster position, has hp in [80, 120) and atk in [5, 20), is alive and is not a client |
| `Lobby.FillerNamesDistinct` | Server/src/main.rs:213-215 | two fillers carry the same name exactly when they take the same roster position |
| `Lobby.PadNpcs` | Server/src/main.rs:212-221 | padding yields max(n, 100) characters, keeps the joiners as a prefix, and fills position i with the filler numbered i |
| `Lobby.LobbyRosterShape` | Server/src/main.rs:206-221 | the finalized roster seats joiner k at position k with its character, and the remaining positions with numbered fillers, all alive with positive atk |
| `Lobby.Standings` | Server/src/main.rs:121-135 | the results have one entry per recorded index |
| `Lobby.HolderInjective` | Server/src/main.rs:124-133 | different results report different characters |
| `Lobby.BattleSettles` | Server/src/main.rs:112-117 | when everyone starts alive, the death order is a permutation and exactly the last-recorded character is alive |
| `Lobby.StandingsRanks` | Server/src/main.rs:121-135 | after a settled battle there is one result per character, ranked 1..n in order, and only rank 1 is a winner |
| `Lobby.StandingsReport` | Server/src/main.rs:121-135 | every character appears in the results under its name and with its final hp, at the rank matching its place in the death order |
| `Lobby.RunBattleRanks` | Server/src/main.rs:78-136 | the server's `run_battle` returns one result per character, ranks 1..n in order, the winner flag only at rank 1, and every character reported with its final hp |
| `Lobby.StandingsOwnOutcome` | Server/src/main.rs:121-135 | in settled standings, character i holds a result at rank q + 1 with its name, its final hp, the winner flag exactly when it survived, and i recorded at position n - (q + 1) of the death order |
| `Lobby.RunBattleReports` | Server/src/main.rs:78-136 | `run_battle` reports character i at some index q, under its name, with rank q + 1, its final hp, the winner flag exactly when it survived, and i recorded at position n - rank of the death order |
| `Lobby.RunBattleWinnerSurvives` | Server/src/main.rs:112-133 | rank 1 goes to the one survivor, everyone else is dead, and its final hp is positive when all hp started positive |
| `Lobby.Lookup` | Server/src/main.rs:225-226 | every name among the results has an entry in the map |
| `Lobby.LookupEntry` | Server/src/main.rs:225-226 | every entry of the map is one of the results, filed under its own name |
| `Lobby.LookupLast` | Server/src/main.rs:225-226 | a result that is the last one with its name is the entry for that name |
| `Lobby.LookupKeepsLast` | Server/src/main.rs:225-226 | over ranked results, the entry for a name ranks no better than any result with that name |
| `Lobby.LookupUniqueName` | Server/src/main.rs:225-226 | a character whose name is unique in the roster is found under it with its own outcome: its final hp, the winner flag exactly when it survived, and a rank r in 1..n for which it is the index recorded at position n - r of the death order |
| `Lobby.LookupSharedName` | Server/src/main.rs:225-226 | when two characters share a name, the entry under it has rank at least 2 and is not a winner |
| `Lobby.Dispatch` | Server/src/main.rs:228-239 | joiner k is sent the map's entry for its name exactly when the name is in the map and no earlier joiner removed it, and otherwise the sentinel (rank 999, hp -1, not a winner) |
| `Lobby.Deliver` | Server/src/main.rs:228-239 | with distinct channels, each joiner's channel receives exactly its reply and no other channel is touched |
| `Lobby.Join` | Server/src/main.rs:146-180 | the joiner (hp 100, atk 20) is appended to the open lobby, or opens a new one and spawns one finalizer; no result is sent |
| `Lobby.LobbyBattle` | Server/src/main.rs:206-226 | the finalized battle seats the joiners at their admission positions, ends settled over max(n, 100) characters, and the replies are the dispatch from the lookup of its results |
| `Lobby.SeatedInLookup` | Server/src/main.rs:225-229 | every joiner's name has an entry in the map |
| `Lobby.SeatedReply` | Server/src/main.rs:228-239 | the reply to joiner k carries its name; for the first joiner with that name it is a result of the battle with a rank in 1..n, otherwise it is the sentinel |
| `Lobby.SeatedRanksDiffer` | Server/src/main.rs:228-239 | two joiners that are each the first with their name get different ranks |
| `Lobby.RepliesFaithful` | Server/src/main.rs:223-239 | every reply carries the joiner's name; the first joiner with a name gets a result of the lobby's battle with a rank in 1..max(n, 100); a later namesake gets the sentinel |
| `Lobby.RepliesRanksDiffer` | Server/src/main.rs:223-239 | joiners that are first with their names are sent pairwise different ranks of the same battle |
| `Lobby.SeatedOwnResult` | Server/src/main.rs:228-239 | dispatching settled standings, a joiner whose name no other character carries is sent its name and its own outcome: final hp, winner flag exactly when it survived, and the rank of its place in the death order |
| `Lobby.RepliesOwnResult` | Server/src/main.rs:206-239 | a joiner whose name no other character of the padded roster carries is sent its name, its own final hp, the winner flag exactly when it survived, and a rank r in 1..n for which it is the index recorded at position n - r of the battle's death order |
| `Lobby.FillerNameShadowsJoiner` | Server/src/main.rs:212-229 | a joiner named NPC_i, where i is a position a filler takes, is sent a rank of at least 2 and is never the winner |
| `Lobby.Finalize` | Server/src/main.rs:194-240 | the lobby is taken out of the registry; with no lobby nothing changes; tickets and pending finalizers are untouched |
| `Lobby.FinalizeServesEachJoiner` | Server/src/main.rs:194-240 | finalizing sends each joiner of the lobby exactly one message, its computed reply, and touches no other channel |
| `Lobby.DeliverFillsEverySlot` | Server/src/main.rs:228-239 | after delivery every ticket handed out holds exactly one result |
| `Lobby.EmptyInv` | Server/src/main.rs:246 | the registry the server starts with, no lobby, satisfies the invariant |
| `Lobby.JoinPreservesInv` | Server/src/main.rs:146-180 | a join keeps the invariant (at most one lobby, a pending finalizer exactly while it exists, distinct tickets, no result sent to a waiting joiner), and the new joiner is waiting |
| `Lobby.ClosePreservesInv` | Server/src/main.rs:195-239 | taking the lobby and sending one reply per joiner restores the invariant with no finalizer pending |
| `Lobby.FirePreservesInv` | Server/src/main.rs:173-177 | the spawned finalizer running at its deadline keeps the invariant and leaves no lobby |
| `Lobby.Apply` | Server/src/main.rs:140-240 | any single event, a join or a deadline, preserves the registry invariant |
| `Lobby.Replay` | Server/src/main.rs:140-240 | after any sequence of joins and deadlines there is at most one lobby and one pending finalizer, one exactly while the lobby exists, and no channel has received two results |

## Left out

- HTTP transport: axum routing, JSON (de)serialization, `main` and the listening socket are not modelled. `JoinResponse` (Server/src/main.rs:184-189) is a field-for-field copy of the result, so the reply is the result itself.
- The client program (`Client/src/main.rs`) is not part of this model.
- The commented-out earlier version of the server that follows `main` in `src/main.rs` is not modelled.
- Time: `sleep_until` and the 10-second deadline are not modelled. A `Deadline` event may fire a pending finalizer at any point in a trace, which covers every timing.
- Interleaving inside `finalize_match`: the source releases the lock after taking the lobby and runs the battle and the dispatch outside it. The model runs the whole finalizer as one step. This does not lose any behaviour, because later joins go into a fresh lobby whose tickets are disjoint from the ones being served.
- `rx.await.expect(...)` (Server/src/main.rs:182) panics only if the finalizer drops a sender. The model shows that every waiting ticket receives exactly one result, but it does not model waiting or the panic itself.
- Distributions: draws are an arbitrary oracle, so the model says nothing about uniformity or probabilities. The defender re-draw loop is replaced by a direct choice among the other living indices. The loop ends with probability one, but not surely, and the model does not represent a run that re-draws forever.
- `HashMap` internals: only the key-to-value behaviour of collecting pairs (the last insertion wins) and of `remove` is modelled, not hashing or iteration order.
- Engine.Hit: hp and atk are `i32` in the source and `int` here. With start values of at most 120 hp and 40 atk, and hp lowered only while positive, no value comes near the `i32` bounds, but the model does not prove this bound.
- Integer widths in general: `usize` ranks, positions and counts are `nat`. In `index_to_rank`, `total - pos` panics on underflow only in builds with overflow checks on (a release build wraps), and the table write panics on an index out of bounds; the model returns `None` in either case, and shows that neither case arises for a battle's death order.
- Behaviour a design might expect but the code does not have: empty or duplicate names are not rejected, lobby size is not capped, a joiner's wait has no timeout, and a failed finalizer is not recovered from. The model follows the code.
- Lobby.RepliesFaithful: states that the first joiner with a given name is sent some result of its battle filed under that name, not necessarily its own. A filler can carry the same name (`Lobby.FillerNameShadowsJoiner`). The own-result property holds when the name is unique in the roster, and is stated by `Lobby.RepliesOwnResult`.
