/**
 The timer-driven `/join` server.

 A registry holds at most one lobby. The first joiner creates the lobby and
 spawns the finalizer task; later joiners are appended to it. When the
 finalizer fires it takes the lobby out of the registry, pads the roster
 with fillers up to the capacity, runs one battle, indexes the results by
 name, and sends every joiner exactly one result over its private channel:
 its own, or a sentinel when its name was already served.

 Each block the program runs under the registry lock is one transition
 here. A joiner's one-shot channel is identified by a ticket, and the
 inbox records every result sent to each ticket, so that "exactly once"
 is a statement about the length of that record. `timers` counts the
 finalizer tasks spawned but not yet run.
 */
module Lobby {
  import opened Wrappers
  import opened Characters
  import opened Seqs
  import opened Engine

  /** The character a joiner plays: hp 100, atk 20. */
  function Newcomer(name: string): Character {
    Character(name, 100, 20, true, true)
  }

  /** The filler at roster position `id`: named NPC_<id>, hp drawn from
      [80, 120), atk from [5, 20). */
  function ServerNpc(id: nat, roll: (nat, nat)): (c: Character)
    ensures c.name == "NPC_" + NatToString(id)
    ensures 80 <= c.hp < 120 && 5 <= c.atk < 20
    ensures c.isAlive && !c.isClient
  {
    Character("NPC_" + NatToString(id), GenRange(80, 120, roll.0), GenRange(5, 20, roll.1), true, false)
  }

  /** Fillers at different positions carry different names, and a filler's
      name determines its position. */
  lemma FillerNamesDistinct(i: nat, j: nat, ri: (nat, nat), rj: (nat, nat))
    ensures ServerNpc(i, ri).name == ServerNpc(j, rj).name <==> i == j
  {
    var prefix := "NPC_";
    if ServerNpc(i, ri).name == ServerNpc(j, rj).name {
      assert NatToString(i) == (prefix + NatToString(i))[|prefix|..];
      assert NatToString(j) == (prefix + NatToString(j))[|prefix|..];
      NatToStringInjective(i, j);
    }
  }

  /** Appends fillers until the roster holds at least the capacity; each
      filler is named after the position it takes. */
  function PadNpcs(chars: seq<Character>, rolls: Rolls): (r: seq<Character>)
    ensures |r| == Max(|chars|, Capacity)
    ensures r[..|chars|] == chars
    ensures forall i :: |chars| <= i < |r| ==> r[i] == ServerNpc(i, rolls(i))
    decreases Capacity - |chars|
  {
    if |chars| >= Capacity then chars
    else PadNpcs(chars + [ServerNpc(|chars|, rolls(|chars|))], rolls)
  }

  /** The results read off a finished arena: one per recorded index,
      taking the death order backwards, so the index recorded last gets
      rank 1 and is the only winner. Each carries the character's final
      name and hp. */
  function Standings(b: Arena): (rs: seq<BattleResult>)
    requires InRange(b.deathOrder, |b.chars|)
    ensures |rs| == |b.deathOrder|
  {
    var order := b.deathOrder;
    seq(|order|, k requires 0 <= k < |order| =>
      var c := b.chars[order[|order| - 1 - k]];
      BattleResult(c.name, k + 1, c.hp, k + 1 == 1))
  }

  /** `run_battle` of this server: the battle, then its standings. */
  function RunBattle(chars: seq<Character>, rolls: Rolls): (rs: seq<BattleResult>)
    requires AtkPositive(chars)
  {
    Standings(Battle(chars, rolls))
  }

  /** The roster index that result `l` reports: position n-1-l of the
      death order. */
  function Holder(order: seq<nat>, l: nat): nat
    requires l < |order|
  {
    order[|order| - 1 - l]
  }

  /** Result `l` reports the character `Holder` names, with rank l+1, and
      is the winner exactly when it comes first. */
  lemma StandingsEntry(b: Arena, l: nat)
    requires InRange(b.deathOrder, |b.chars|) && l < |b.deathOrder|
    ensures Holder(b.deathOrder, l) < |b.chars|
    ensures var c := b.chars[Holder(b.deathOrder, l)];
      Standings(b)[l] == BattleResult(c.name, l + 1, c.hp, l == 0)
  {
  }

  /** Different results report different characters. */
  lemma HolderInjective(b: Arena, l1: nat, l2: nat)
    requires NoDup(b.deathOrder)
    requires l1 < |b.deathOrder| && l2 < |b.deathOrder| && l1 != l2
    ensures Holder(b.deathOrder, l1) != Holder(b.deathOrder, l2)
  {
    var n := |b.deathOrder|;
    assert b.deathOrder[n - 1 - l1] != b.deathOrder[n - 1 - l2];
  }

  /** An arena after a battle in which everyone started alive: the death
      order lists every character once, and exactly the character recorded
      last is still alive. */
  ghost predicate Settled(b: Arena) {
    && IsPermutation(b.deathOrder, |b.chars|)
    && forall i :: 0 <= i < |b.chars| ==> (b.chars[i].isAlive <==> i == Holder(b.deathOrder, 0))
  }

  lemma BattleSettles(chars: seq<Character>, rolls: Rolls)
    requires AtkPositive(chars) && AllAlive(chars)
    ensures Settled(Battle(chars, rolls))
  {
    BattleOrderIsPermutation(chars, rolls);
    if |chars| >= 1 {
      BattleSurvivorIsLast(chars, rolls);
    }
  }

  /** Settled standings hold one result per character, ranked 1..n in
      order, and only rank 1 is a winner. */
  lemma StandingsRanks(b: Arena)
    requires Settled(b)
    ensures var rs := Standings(b);
      && |rs| == |b.chars|
      && (forall k :: 0 <= k < |rs| ==> rs[k].rank == k + 1)
      && (forall k :: 0 <= k < |rs| ==> (rs[k].isWinner <==> rs[k].rank == 1))
  {
  }

  /** In settled standings every character is reported, under its name and
      with its final hp. */
  lemma StandingsReport(b: Arena, i: nat) returns (q: nat)
    requires Settled(b) && i < |b.chars|
    ensures q < |Standings(b)| && Holder(b.deathOrder, q) == i
    ensures Standings(b)[q] == BattleResult(b.chars[i].name, q + 1, b.chars[i].hp, q == 0)
  {
    var order := b.deathOrder;
    var size := |b.chars|;
    PermutationCovers(order, size, i);
    var p :| 0 <= p < size && order[p] == i;
    q := size - 1 - p;
    StandingsEntry(b, q);
  }

  /** When everyone starts alive there is one result per character, the
      ranks are exactly 1..n in order, only rank 1 is a winner, and every
      character is reported with its final hp. */
  lemma RunBattleRanks(chars: seq<Character>, rolls: Rolls)
    requires AtkPositive(chars) && AllAlive(chars)
    ensures var rs := RunBattle(chars, rolls);
      && |rs| == |chars|
      && (forall k :: 0 <= k < |rs| ==> rs[k].rank == k + 1)
      && (forall k :: 0 <= k < |rs| ==> (rs[k].isWinner <==> rs[k].rank == 1))
      && (forall i :: 0 <= i < |chars| ==>
            (exists k :: 0 <= k < |rs| && rs[k].name == chars[i].name
                         && rs[k].finalHp == Battle(chars, rolls).chars[i].hp))
  {
    var b := Battle(chars, rolls);
    BattleSettles(chars, rolls);
    StandingsRanks(b);
    forall i | 0 <= i < |chars|
      ensures exists k :: 0 <= k < |Standings(b)| && Standings(b)[k].name == chars[i].name
                          && Standings(b)[k].finalHp == b.chars[i].hp
    {
      var q := StandingsReport(b, i);
    }
  }

  /** In settled standings character `i` holds result `q`, which carries its
      name and its own outcome. */
  lemma StandingsOwnOutcome(b: Arena, i: nat) returns (q: nat)
    requires Settled(b) && i < |b.chars|
    ensures q < |Standings(b)| && Standings(b)[q].name == b.chars[i].name
    ensures Standings(b)[q].rank == q + 1 && OwnOutcome(Standings(b)[q], b, i)
  {
    q := StandingsReport(b, i);
    if q != 0 {
      HolderInjective(b, 0, q);
    }
  }

  /** Character `i` is reported under its name and with its own outcome:
      final hp, winner flag exactly when it survived, and the rank of its
      place in the death order. */
  lemma RunBattleReports(chars: seq<Character>, rolls: Rolls, i: nat) returns (q: nat)
    requires AtkPositive(chars) && AllAlive(chars) && i < |chars|
    ensures q < |RunBattle(chars, rolls)|
    ensures RunBattle(chars, rolls)[q].name == chars[i].name
    ensures RunBattle(chars, rolls)[q].rank == q + 1
    ensures OwnOutcome(RunBattle(chars, rolls)[q], Battle(chars, rolls), i)
  {
    var b := Battle(chars, rolls);
    BattleSettles(chars, rolls);
    q := StandingsOwnOutcome(b, i);
    assert RunBattle(chars, rolls) == Standings(b);
  }

  /** Rank 1 goes to the one survivor, whose hp is positive if every hp
      started positive. */
  lemma RunBattleWinnerSurvives(chars: seq<Character>, rolls: Rolls)
    requires AtkPositive(chars) && AllAlive(chars) && |chars| >= 1
    ensures var b := Battle(chars, rolls);
      var rs := RunBattle(chars, rolls);
      exists s :: 0 <= s < |chars|
        && b.chars[s].isAlive
        && (forall i :: 0 <= i < |chars| && i != s ==> !b.chars[i].isAlive)
        && rs[0].name == chars[s].name
        && rs[0].finalHp == b.chars[s].hp
        && (AliveHpPositive(chars) ==> rs[0].finalHp > 0)
  {
    var b := Battle(chars, rolls);
    BattleSettles(chars, rolls);
    StandingsEntry(b, 0);
    var s := Holder(b.deathOrder, 0);
    assert b.chars[s].isAlive;
    if AliveHpPositive(chars) {
      BattleSurvivorIsLast(chars, rolls);
    }
  }

  /** The sentinel sent to a joiner that finds no entry in the lookup. */
  function Sentinel(name: string): BattleResult {
    BattleResult(name, 999, -1, false)
  }

  /** No result after position `k` carries the name of result `k`. */
  ghost predicate LastWithName(rs: seq<BattleResult>, k: nat)
    requires k < |rs|
  {
    forall l :: k < l < |rs| ==> rs[l].name != rs[k].name
  }

  /** The name-keyed lookup built by inserting the results in order, a
      later result replacing an earlier one under the same name. Every name
      that occurs has an entry. */
  function Lookup(rs: seq<BattleResult>): (m: map<string, BattleResult>)
    ensures forall k :: 0 <= k < |rs| ==> rs[k].name in m
  {
    if |rs| == 0 then map[]
    else
      var last := rs[|rs| - 1];
      var init := rs[..|rs| - 1];
      assert forall k :: 0 <= k < |init| ==> init[k] == rs[k];
      Lookup(init)[last.name := last]
  }

  /** Every entry of the lookup is one of the results, filed under its own
      name. */
  lemma {:induction false} LookupEntry(rs: seq<BattleResult>, n: string) returns (j: nat)
    requires n in Lookup(rs)
    ensures j < |rs| && Lookup(rs)[n] == rs[j] && rs[j].name == n
  {
    var init := rs[..|rs| - 1];
    if n == rs[|rs| - 1].name {
      j := |rs| - 1;
    } else {
      j := LookupEntry(init, n);
      assert init[j] == rs[j];
    }
  }

  /** The entry under a name is the last result carrying it. */
  lemma {:induction false} LookupLast(rs: seq<BattleResult>, k: nat)
    requires k < |rs| && LastWithName(rs, k)
    ensures Lookup(rs)[rs[k].name] == rs[k]
  {
    var init := rs[..|rs| - 1];
    if k < |rs| - 1 {
      assert init[k] == rs[k];
      assert LastWithName(init, k);
      LookupLast(init, k);
    }
  }

  /** A joiner, and the ticket of its one-shot result channel. */
  datatype Joiner = Joiner(character: Character, ticket: nat)

  function Tickets(ps: seq<Joiner>): (ts: seq<nat>)
    ensures |ts| == |ps|
    ensures forall k :: 0 <= k < |ps| ==> ts[k] == ps[k].ticket
  {
    seq(|ps|, k requires 0 <= k < |ps| => ps[k].ticket)
  }

  /** No earlier joiner of the lobby has the same name as joiner `k`. */
  ghost predicate FirstWithName(ps: seq<Joiner>, k: nat)
    requires k < |ps|
  {
    forall j :: 0 <= j < k ==> ps[j].character.name != ps[k].character.name
  }

  /** The dispatch loop: each joiner in admission order removes its name's
      entry from the lookup and is sent it, or is sent the sentinel when
      there is no entry. So a joiner gets the entry exactly when its name
      is in the lookup and no earlier joiner has the same name. */
  function Dispatch(ps: seq<Joiner>, table: map<string, BattleResult>): (out: seq<BattleResult>)
    ensures |out| == |ps|
    ensures forall k :: 0 <= k < |ps| ==>
      out[k] == (if ps[k].character.name in table && FirstWithName(ps, k)
                 then table[ps[k].character.name]
                 else Sentinel(ps[k].character.name))
  {
    if |ps| == 0 then []
    else
      var name := ps[0].character.name;
      var rest := ps[1..];
      assert forall k :: 1 <= k < |ps| ==> ps[k] == rest[k - 1];
      if name in table then [table[name]] + Dispatch(rest, table - {name})
      else [Sentinel(name)] + Dispatch(rest, table)
  }

  /** Every result sent so far to ticket `t`. */
  function Slot(inbox: map<nat, seq<BattleResult>>, t: nat): seq<BattleResult> {
    if t in inbox then inbox[t] else []
  }

  /** Sends `replies[k]` over the channel of joiner `k`, for every k. With
      distinct tickets each joiner's channel gets exactly its reply, and no
      other channel is touched. */
  function Deliver(inbox: map<nat, seq<BattleResult>>, ps: seq<Joiner>, replies: seq<BattleResult>)
    : (r: map<nat, seq<BattleResult>>)
    requires |replies| == |ps|
    decreases |ps|
    ensures NoDup(Tickets(ps)) ==> forall k :: 0 <= k < |ps| ==>
      Slot(r, ps[k].ticket) == Slot(inbox, ps[k].ticket) + [replies[k]]
    ensures forall t :: t !in Tickets(ps) ==> Slot(r, t) == Slot(inbox, t)
    ensures forall t :: t in r ==> t in inbox || t in Tickets(ps)
  {
    if |ps| == 0 then inbox
    else
      var t := ps[0].ticket;
      var rest := ps[1..];
      assert Tickets(ps) == [t] + Tickets(rest);
      Deliver(inbox[t := Slot(inbox, t) + [replies[0]]], rest, replies[1..])
  }

  /** The registry: the optional lobby, the finalizer tasks spawned but not
      yet run, the next ticket to hand out, and the results sent per
      ticket. */
  datatype Registry = Registry(
    lobby: Option<seq<Joiner>>,
    timers: nat,
    nextTicket: nat,
    inbox: map<nat, seq<BattleResult>>)

  /** The registry when the server starts. */
  function Empty(): Registry {
    Registry(None, 0, 0, map[])
  }

  /** The lock-held block of `join_handler`: create the lobby with this
      joiner and spawn the finalizer, or append the joiner to the existing
      lobby. The joiner's ticket is `reg.nextTicket`. */
  function Join(reg: Registry, name: string): (r: Registry)
    ensures r.lobby.Some? && |r.lobby.value| >= 1
    ensures r.lobby.value[|r.lobby.value| - 1] == Joiner(Newcomer(name), reg.nextTicket)
    ensures reg.lobby.Some? ==> r.lobby.value[..|r.lobby.value| - 1] == reg.lobby.value && r.timers == reg.timers
    ensures reg.lobby.None? ==> |r.lobby.value| == 1 && r.timers == reg.timers + 1
    ensures r.inbox == reg.inbox
  {
    var joiner := Joiner(Newcomer(name), reg.nextTicket);
    match reg.lobby
    case Some(ps) =>
      reg.(lobby := Some(ps + [joiner]), nextTicket := reg.nextTicket + 1)
    case None =>
      reg.(lobby := Some([joiner]), timers := reg.timers + 1, nextTicket := reg.nextTicket + 1)
  }

  /** Every lobby character can fight: the battle terminates. */
  ghost predicate Armed(reg: Registry) {
    reg.lobby.Some? ==> forall k :: 0 <= k < |reg.lobby.value| ==> reg.lobby.value[k].character.atk > 0
  }

  /** The roster of a finalized lobby: the joiners' characters in admission
      order, then fillers up to the capacity. */
  function LobbyRoster(ps: seq<Joiner>, npcRolls: Rolls): seq<Character> {
    PadNpcs(seq(|ps|, k requires 0 <= k < |ps| => ps[k].character), npcRolls)
  }

  /** The roster of a finalized lobby holds the joiners at positions
      0..k-1 in admission order and fillers NPC_k.. up to the capacity,
      with filler hp in [80, 120) and atk in [5, 20). */
  lemma LobbyRosterShape(ps: seq<Joiner>, npcRolls: Rolls)
    ensures var roster := LobbyRoster(ps, npcRolls);
      && |roster| == Max(|ps|, Capacity)
      && (forall k :: 0 <= k < |ps| ==> roster[k] == ps[k].character)
      && (forall i :: |ps| <= i < |roster| ==>
            && roster[i].name == "NPC_" + NatToString(i)
            && 80 <= roster[i].hp < 120 && 5 <= roster[i].atk < 20
            && roster[i].isAlive && !roster[i].isClient)
  {
    var chars := seq(|ps|, k requires 0 <= k < |ps| => ps[k].character);
    var roster := LobbyRoster(ps, npcRolls);
    forall k | 0 <= k < |ps| ensures roster[k] == ps[k].character {
      assert roster[..|ps|][k] == chars[k];
    }
  }

  /** The results of the battle a lobby's finalizer runs. */
  function LobbyResults(ps: seq<Joiner>, npcRolls: Rolls, battleRolls: Rolls): seq<BattleResult>
    requires forall k :: 0 <= k < |ps| ==> ps[k].character.atk > 0
  {
    LobbyRosterShape(ps, npcRolls);
    RunBattle(LobbyRoster(ps, npcRolls), battleRolls)
  }

  /** The reply each joiner of a finalized lobby is sent, in admission
      order. */
  function Replies(ps: seq<Joiner>, npcRolls: Rolls, battleRolls: Rolls): (out: seq<BattleResult>)
    requires forall k :: 0 <= k < |ps| ==> ps[k].character.atk > 0
    ensures |out| == |ps|
  {
    Dispatch(ps, Lookup(LobbyResults(ps, npcRolls, battleRolls)))
  }

  /** Every joiner can fight and enters the battle alive. */
  ghost predicate Playable(ps: seq<Joiner>) {
    forall k :: 0 <= k < |ps| ==> ps[k].character.atk > 0 && ps[k].character.isAlive
  }

  /** A settled arena whose first characters carry the joiners' names, in
      admission order. */
  ghost predicate Seats(ps: seq<Joiner>, b: Arena) {
    && Settled(b)
    && |ps| <= |b.chars|
    && forall k :: 0 <= k < |ps| ==> b.chars[k].name == ps[k].character.name
  }

  /** The battle a lobby's finalizer runs seats the lobby's joiners, keeps
      every roster name, and the replies are dispatched from the lookup of
      its standings. */
  lemma LobbyBattle(ps: seq<Joiner>, npcRolls: Rolls, battleRolls: Rolls) returns (b: Arena)
    requires Playable(ps)
    ensures b == Battle(LobbyRoster(ps, npcRolls), battleRolls)
    ensures Seats(ps, b) && |b.chars| == Max(|ps|, Capacity)
    ensures forall i :: 0 <= i < |b.chars| ==> b.chars[i].name == LobbyRoster(ps, npcRolls)[i].name
    ensures LobbyResults(ps, npcRolls, battleRolls) == Standings(b)
    ensures Replies(ps, npcRolls, battleRolls) == Dispatch(ps, Lookup(Standings(b)))
  {
    var roster := LobbyRoster(ps, npcRolls);
    LobbyRosterShape(ps, npcRolls);
    b := Battle(roster, battleRolls);
    BattleSettles(roster, battleRolls);
  }

  /** Every seated joiner's name has an entry in the lookup. */
  lemma SeatedInLookup(ps: seq<Joiner>, b: Arena)
    requires Seats(ps, b)
    ensures forall k :: 0 <= k < |ps| ==> ps[k].character.name in Lookup(Standings(b))
  {
    forall k | 0 <= k < |ps| ensures ps[k].character.name in Lookup(Standings(b)) {
      var q := StandingsReport(b, k);
    }
  }

  /** Dispatching from the lookup of settled standings: the reply to
      joiner `k` carries its name; if it is the first joiner with that
      name it is one of the standings, with a rank in 1..n, and otherwise
      it is the sentinel. */
  lemma SeatedReply(ps: seq<Joiner>, b: Arena, k: nat)
    requires Seats(ps, b) && k < |ps|
    ensures var out := Dispatch(ps, Lookup(Standings(b)));
      && out[k].name == ps[k].character.name
      && (FirstWithName(ps, k) ==> out[k] in Standings(b) && 1 <= out[k].rank <= |b.chars|)
      && (!FirstWithName(ps, k) ==> out[k] == Sentinel(ps[k].character.name))
  {
    var rs := Standings(b);
    SeatedInLookup(ps, b);
    StandingsRanks(b);
    var j := LookupEntry(rs, ps[k].character.name);
  }

  /** Two joiners that are each the first with their name are sent
      different ranks of settled standings. */
  lemma SeatedRanksDiffer(ps: seq<Joiner>, b: Arena, k1: nat, k2: nat)
    requires Seats(ps, b)
    requires k1 < k2 < |ps| && FirstWithName(ps, k1) && FirstWithName(ps, k2)
    ensures Dispatch(ps, Lookup(Standings(b)))[k1].rank != Dispatch(ps, Lookup(Standings(b)))[k2].rank
  {
    var rs := Standings(b);
    SeatedInLookup(ps, b);
    StandingsRanks(b);
    var j1 := LookupEntry(rs, ps[k1].character.name);
    var j2 := LookupEntry(rs, ps[k2].character.name);
  }

  /** Each reply carries the joiner's name. The first joiner with a given
      name is sent a result of the lobby's one battle, with a rank in
      1..max(k, capacity); a later joiner with the same name is sent the
      sentinel. */
  lemma RepliesFaithful(ps: seq<Joiner>, npcRolls: Rolls, battleRolls: Rolls)
    requires Playable(ps)
    ensures var out := Replies(ps, npcRolls, battleRolls);
      && (forall k :: 0 <= k < |ps| ==> out[k].name == ps[k].character.name)
      && (forall k :: 0 <= k < |ps| && FirstWithName(ps, k) ==>
            out[k] in LobbyResults(ps, npcRolls, battleRolls) && 1 <= out[k].rank <= Max(|ps|, Capacity))
      && (forall k :: 0 <= k < |ps| && !FirstWithName(ps, k) ==> out[k] == Sentinel(ps[k].character.name))
  {
    var b := LobbyBattle(ps, npcRolls, battleRolls);
    forall k | 0 <= k < |ps|
      ensures var out := Replies(ps, npcRolls, battleRolls);
        && out[k].name == ps[k].character.name
        && (FirstWithName(ps, k) ==> out[k] in Standings(b) && 1 <= out[k].rank <= |b.chars|)
        && (!FirstWithName(ps, k) ==> out[k] == Sentinel(ps[k].character.name))
    {
      SeatedReply(ps, b, k);
    }
  }

  /** Two joiners that are each the first with their name are sent
      different ranks of the same battle. */
  lemma RepliesRanksDiffer(ps: seq<Joiner>, npcRolls: Rolls, battleRolls: Rolls)
    requires Playable(ps)
    ensures var out := Replies(ps, npcRolls, battleRolls);
      forall k1, k2 :: 0 <= k1 < k2 < |ps| && FirstWithName(ps, k1) && FirstWithName(ps, k2) ==>
        out[k1].rank != out[k2].rank
  {
    var b := LobbyBattle(ps, npcRolls, battleRolls);
    forall k1, k2 | 0 <= k1 < k2 < |ps| && FirstWithName(ps, k1) && FirstWithName(ps, k2)
      ensures Replies(ps, npcRolls, battleRolls)[k1].rank != Replies(ps, npcRolls, battleRolls)[k2].rank
    {
      SeatedRanksDiffer(ps, b, k1, k2);
    }
  }

  /** Inserting the results in order keeps, for every name, the entry
      inserted last: with ranks 1..n in order, the entry for the name of
      result `b` ranks no better than `b` itself. */
  lemma {:induction false} LookupKeepsLast(rs: seq<BattleResult>, b: nat)
    requires b < |rs|
    requires forall j :: 0 <= j < |rs| ==> rs[j].rank == j + 1
    ensures Lookup(rs)[rs[b].name].rank >= b + 1
    decreases |rs|
  {
    var init := rs[..|rs| - 1];
    if b < |rs| - 1 && rs[|rs| - 1].name != rs[b].name {
      assert init[b] == rs[b];
      LookupKeepsLast(init, b);
    }
  }

  /** Result r is character k's own outcome in arena b: its final hp, the
      winner flag exactly when it is the survivor, and the rank that points
      back to its own place in the death order (rank r is the index
      recorded at position n - r). */
  ghost predicate OwnOutcome(r: BattleResult, b: Arena, k: nat) {
    && k < |b.chars|
    && r.finalHp == b.chars[k].hp
    && (r.isWinner <==> b.chars[k].isAlive)
    && |b.deathOrder| == |b.chars|
    && 1 <= r.rank <= |b.chars|
    && b.deathOrder[|b.chars| - r.rank] == k
  }

  /** In settled standings, a character whose name no other character
      carries is found in the lookup under its own name and outcome. */
  lemma LookupUniqueName(b: Arena, k: nat)
    requires Settled(b) && k < |b.chars|
    requires forall i :: 0 <= i < |b.chars| && i != k ==> b.chars[i].name != b.chars[k].name
    ensures b.chars[k].name in Lookup(Standings(b))
    ensures var r := Lookup(Standings(b))[b.chars[k].name];
      r.name == b.chars[k].name && OwnOutcome(r, b, k)
  {
    var rs := Standings(b);
    var q := StandingsReport(b, k);
    forall l | q < l < |rs| ensures rs[l].name != rs[q].name {
      StandingsEntry(b, l);
      HolderInjective(b, l, q);
    }
    LookupLast(rs, q);
    if q != 0 {
      HolderInjective(b, 0, q);
    }
  }

  /** In settled standings, when two characters share a name the lookup
      under that name holds the lower-ranked of their results: it never
      carries rank 1 or the winner flag. */
  lemma LookupSharedName(b: Arena, k: nat, i: nat)
    requires Settled(b) && k < |b.chars| && i < |b.chars|
    requires k != i && b.chars[k].name == b.chars[i].name
    ensures b.chars[k].name in Lookup(Standings(b))
    ensures var r := Lookup(Standings(b))[b.chars[k].name];
      r.rank >= 2 && !r.isWinner
  {
    var rs := Standings(b);
    var qk := StandingsReport(b, k);
    var qi := StandingsReport(b, i);
    var q := if qk < qi then qi else qk;
    StandingsRanks(b);
    LookupKeepsLast(rs, q);
    var j := LookupEntry(rs, b.chars[k].name);
  }

  /** Dispatching from the lookup of settled standings: a joiner whose name
      no other character of the arena carries is sent its own outcome. */
  lemma SeatedOwnResult(ps: seq<Joiner>, b: Arena, k: nat)
    requires Seats(ps, b) && k < |ps|
    requires forall i :: 0 <= i < |b.chars| && i != k ==> b.chars[i].name != b.chars[k].name
    ensures var out := Dispatch(ps, Lookup(Standings(b)));
      out[k].name == ps[k].character.name && OwnOutcome(out[k], b, k)
  {
    assert FirstWithName(ps, k) by {
      forall j | 0 <= j < k ensures ps[j].character.name != ps[k].character.name {
        assert b.chars[j].name == ps[j].character.name;
      }
    }
    SeatedInLookup(ps, b);
    LookupUniqueName(b, k);
  }

  /** A joiner whose name no other character of the roster carries, joiner
      or filler, is sent its own outcome. */
  lemma RepliesOwnResult(ps: seq<Joiner>, npcRolls: Rolls, battleRolls: Rolls, k: nat)
    requires Playable(ps) && k < |ps|
    requires forall i :: 0 <= i < |LobbyRoster(ps, npcRolls)| && i != k ==>
      LobbyRoster(ps, npcRolls)[i].name != ps[k].character.name
    ensures var out := Replies(ps, npcRolls, battleRolls);
      out[k].name == ps[k].character.name
      && OwnOutcome(out[k], Battle(LobbyRoster(ps, npcRolls), battleRolls), k)
  {
    var b := LobbyBattle(ps, npcRolls, battleRolls);
    assert b.chars[k].name == ps[k].character.name;
    assert forall i :: 0 <= i < |b.chars| && i != k ==> b.chars[i].name != b.chars[k].name;
    SeatedOwnResult(ps, b, k);
  }

  /** A joiner named NPC_<i> after a position the fillers take shares its
      name with that filler, and the lookup keeps whichever of the two
      ranked lower: the joiner is never told it won, even when it is the
      survivor. */
  lemma FillerNameShadowsJoiner(ps: seq<Joiner>, npcRolls: Rolls, battleRolls: Rolls, k: nat, i: nat)
    requires Playable(ps) && k < |ps|
    requires |ps| <= i < Capacity && ps[k].character.name == "NPC_" + NatToString(i)
    ensures var out := Replies(ps, npcRolls, battleRolls);
      out[k].rank >= 2 && !out[k].isWinner
  {
    var b := LobbyBattle(ps, npcRolls, battleRolls);
    if FirstWithName(ps, k) {
      LobbyRosterShape(ps, npcRolls);
      assert b.chars[i].name == b.chars[k].name;
      SeatedInLookup(ps, b);
      LookupSharedName(b, k, i);
    }
  }

  /** Takes the lobby out of the registry and sends `replies[k]` to joiner
      `k`. */
  function Close(reg: Registry, replies: seq<BattleResult>): (r: Registry)
    requires reg.lobby.Some? && |replies| == |reg.lobby.value|
  {
    reg.(lobby := None, inbox := Deliver(reg.inbox, reg.lobby.value, replies))
  }

  /** `finalize_match`: take the lobby out of the registry (nothing to do
      if there is none), run the battle over the padded roster, and send
      every joiner its reply. */
  function Finalize(reg: Registry, npcRolls: Rolls, battleRolls: Rolls): (r: Registry)
    requires Armed(reg)
    ensures r.lobby.None?
    ensures reg.lobby.None? ==> r == reg
    ensures r.timers == reg.timers && r.nextTicket == reg.nextTicket
  {
    match reg.lobby
    case None => reg
    case Some(ps) => Close(reg, Replies(ps, npcRolls, battleRolls))
  }

  /** A spawned finalizer task reaches its deadline and runs. */
  function Fire(reg: Registry, npcRolls: Rolls, battleRolls: Rolls): Registry
    requires reg.timers > 0 && Armed(reg)
  {
    Finalize(reg.(timers := reg.timers - 1), npcRolls, battleRolls)
  }

  /** Ticket `t` belongs to a joiner still waiting in the lobby. */
  ghost predicate Waiting(reg: Registry, t: nat) {
    reg.lobby.Some? && t in Tickets(reg.lobby.value)
  }

  /** The registry invariant: a finalizer is pending exactly while a lobby
      exists (so there is at most one of each); the lobby holds joiners with
      distinct tickets, each playing the joiner character; and every ticket
      handed out has received no result while it waits in the lobby and
      exactly one result once it has left it. */
  ghost predicate Inv(reg: Registry) {
    && reg.timers == (if reg.lobby.Some? then 1 else 0)
    && (reg.lobby.Some? ==>
          var ps := reg.lobby.value;
          && |ps| >= 1
          && NoDup(Tickets(ps))
          && (forall k :: 0 <= k < |ps| ==> ps[k].ticket < reg.nextTicket)
          && (forall k :: 0 <= k < |ps| ==> ps[k].character == Newcomer(ps[k].character.name)))
    && (forall t :: t in reg.inbox ==> t < reg.nextTicket)
    && (forall t :: 0 <= t < reg.nextTicket ==>
          |Slot(reg.inbox, t)| == (if Waiting(reg, t) then 0 else 1))
  }

  lemma EmptyInv()
    ensures Inv(Empty())
  {
  }

  /** A join keeps the invariant: at most one lobby and at most one
      pending finalizer, and the new joiner waits with no result yet. */
  lemma JoinPreservesInv(reg: Registry, name: string)
    requires Inv(reg)
    ensures Inv(Join(reg, name))
    ensures Waiting(Join(reg, name), reg.nextTicket)
    ensures Join(reg, name).timers <= 1
  {
    var r := Join(reg, name);
    var t0 := reg.nextTicket;
    assert t0 !in reg.inbox;
    var ps := r.lobby.value;
    assert ps[|ps| - 1].ticket == t0;
    if reg.lobby.Some? {
      var old_ps := reg.lobby.value;
      assert ps == old_ps + [Joiner(Newcomer(name), t0)];
      assert Tickets(ps) == Tickets(old_ps) + [t0];
      NoDupConcat(Tickets(old_ps), [t0]);
      forall t | 0 <= t < reg.nextTicket ensures Waiting(r, t) == Waiting(reg, t) {
        assert t in Tickets(ps) <==> t in Tickets(old_ps) || t == t0;
      }
    } else {
      assert Tickets(ps) == [t0];
    }
  }

  /** Finalizing a lobby sends each joiner exactly one reply, the one
      `Replies` computes for it, and leaves every other channel alone and
      the registry without a lobby. */
  lemma FinalizeServesEachJoiner(reg: Registry, npcRolls: Rolls, battleRolls: Rolls)
    requires Inv(reg) && reg.lobby.Some?
    ensures var ps := reg.lobby.value;
      var r := Finalize(reg, npcRolls, battleRolls);
      && r.lobby.None?
      && (forall t :: t !in Tickets(ps) ==> Slot(r.inbox, t) == Slot(reg.inbox, t))
      && (forall k :: 0 <= k < |ps| ==>
            Slot(r.inbox, ps[k].ticket) == [Replies(ps, npcRolls, battleRolls)[k]])
  {
    var ps := reg.lobby.value;
    forall k | 0 <= k < |ps| ensures Slot(reg.inbox, ps[k].ticket) == [] {
      assert Tickets(ps)[k] == ps[k].ticket;
      assert Waiting(reg, ps[k].ticket);
    }
  }

  /** Sending one reply to each waiting joiner leaves every ticket handed
      out with exactly one result, when before the waiting ones held none
      and the others one each. */
  lemma DeliverFillsEverySlot(inbox: map<nat, seq<BattleResult>>, ps: seq<Joiner>,
                              replies: seq<BattleResult>, next: nat)
    requires |replies| == |ps| && NoDup(Tickets(ps))
    requires forall k :: 0 <= k < |ps| ==> ps[k].ticket < next
    requires forall t :: t in inbox ==> t < next
    requires forall t :: 0 <= t < next ==> |Slot(inbox, t)| == (if t in Tickets(ps) then 0 else 1)
    ensures forall t :: 0 <= t < next ==> |Slot(Deliver(inbox, ps, replies), t)| == 1
    ensures forall t :: t in Deliver(inbox, ps, replies) ==> t < next
  {
    var r := Deliver(inbox, ps, replies);
    forall t | 0 <= t < next ensures |Slot(r, t)| == 1 {
      if t in Tickets(ps) {
        var k :| 0 <= k < |ps| && Tickets(ps)[k] == t;
      }
    }
    forall t | t in r ensures t < next {
      if t in Tickets(ps) {
        var k :| 0 <= k < |ps| && Tickets(ps)[k] == t;
      }
    }
  }

  /** Closing a lobby keeps the invariant once its finalizer is spent:
      every ticket handed out ends with exactly one result, the lobby's
      joiners their reply and everyone else the result they held already. */
  lemma ClosePreservesInv(reg: Registry, replies: seq<BattleResult>)
    requires Inv(reg) && reg.lobby.Some? && |replies| == |reg.lobby.value|
    ensures Inv(Close(reg, replies).(timers := 0))
  {
    var ps := reg.lobby.value;
    assert forall t :: 0 <= t < reg.nextTicket ==> Waiting(reg, t) == (t in Tickets(ps));
    DeliverFillsEverySlot(reg.inbox, ps, replies, reg.nextTicket);
  }

  /** A finalizer run keeps the invariant: the lobby is gone, no finalizer
      is pending, and every joiner of the finalized lobby now holds exactly
      one result. */
  lemma FirePreservesInv(reg: Registry, npcRolls: Rolls, battleRolls: Rolls)
    requires Inv(reg) && reg.timers > 0
    ensures Armed(reg)
    ensures Inv(Fire(reg, npcRolls, battleRolls))
    ensures Fire(reg, npcRolls, battleRolls).lobby.None?
  {
    var replies := Replies(reg.lobby.value, npcRolls, battleRolls);
    ClosePreservesInv(reg, replies);
    assert Fire(reg, npcRolls, battleRolls) == Close(reg, replies).(timers := 0);
  }

  /** What can happen to the registry: a join request arrives, or a
      finalizer task's deadline passes. */
  datatype Event = Arrive(name: string) | Deadline(npcRolls: Rolls, battleRolls: Rolls)

  /** One event. A deadline only fires a finalizer that has been spawned;
      with none pending it changes nothing. */
  function Apply(reg: Registry, e: Event): (r: Registry)
    requires Inv(reg)
    ensures Inv(r)
  {
    match e
    case Arrive(name) =>
      JoinPreservesInv(reg, name);
      Join(reg, name)
    case Deadline(npcRolls, battleRolls) =>
      if reg.timers == 0 then reg
      else
        FirePreservesInv(reg, npcRolls, battleRolls);
        Fire(reg, npcRolls, battleRolls)
  }

  /** Any sequence of events from a registry satisfying the invariant ends
      in one satisfying it: at most one lobby, at most one pending
      finalizer, one exactly while a lobby exists, and no ticket ever
      receiving two results. */
  function Replay(reg: Registry, events: seq<Event>): (r: Registry)
    requires Inv(reg)
    ensures Inv(r)
    ensures r.timers <= 1 && (r.timers == 1 <==> r.lobby.Some?)
    ensures forall t :: 0 <= t < r.nextTicket ==> |Slot(r.inbox, t)| <= 1
    decreases |events|
  {
    if |events| == 0 then reg
    else Replay(Apply(reg, events[0]), events[1..])
  }
}
