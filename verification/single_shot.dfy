/**
 The synchronous `/battle` server: the client sends the names of its
 characters, the server gives each one random stats, pads the roster with
 fillers up to the capacity, runs one battle, and answers with the rank,
 final hp and winner flag of each client character, in request order.

 Ranks are read off the death order: the index recorded at position `pos`
 is given rank `total - pos`. The subtraction is on unsigned integers and
 the table write is bounds-checked, so `IndexToRank` returns `None` where
 the program would panic; `HandlerRanksClients` shows that it never does.
 */
module SingleShot {
  import opened Wrappers
  import opened Characters
  import opened Seqs
  import opened Engine

  /** `random_character`: a filler named `prefix` followed by `index`, with
      hp drawn from [50, 100] and atk from [20, 40]. */
  function RandomCharacter(prefix: string, index: nat, roll: (nat, nat)): (c: Character)
    ensures c.name == prefix + NatToString(index)
    ensures 50 <= c.hp <= 100 && 20 <= c.atk <= 40
    ensures c.isAlive && !c.isClient
  {
    Character(prefix + NatToString(index), GenRange(50, 101, roll.0), GenRange(20, 41, roll.1), true, false)
  }

  /** A requested character, with the same stat ranges as a filler. */
  function ClientCharacter(name: string, roll: (nat, nat)): (c: Character)
    ensures c.name == name
    ensures 50 <= c.hp <= 100 && 20 <= c.atk <= 40
    ensures c.isAlive && c.isClient
  {
    Character(name, GenRange(50, 101, roll.0), GenRange(20, 41, roll.1), true, true)
  }

  /** The roster of `battle_handler`: the requested characters in request
      order, then, if there are fewer than the capacity, fillers named
      NPC_0, NPC_1, ... up to the capacity. */
  function HandlerRoster(names: seq<string>, clientRolls: Rolls, npcRolls: Rolls): (chars: seq<Character>)
    ensures |chars| == Max(|names|, Capacity)
    ensures forall i :: 0 <= i < |names| ==> chars[i] == ClientCharacter(names[i], clientRolls(i))
    ensures forall i :: |names| <= i < |chars| ==>
      chars[i] == RandomCharacter("NPC_", i - |names|, npcRolls(i - |names|))
    ensures AtkPositive(chars)
  {
    var clients := seq(|names|, i requires 0 <= i < |names| => ClientCharacter(names[i], clientRolls(i)));
    var need := if |names| < Capacity then Capacity - |names| else 0;
    clients + seq(need, i requires 0 <= i < need => RandomCharacter("NPC_", i, npcRolls(i)))
  }

  /** The handler's roster is a legal battle input: everyone alive, with
      positive atk and positive hp; clients fill slots 0..k-1 in request
      order and the fillers are the only non-clients. */
  lemma HandlerRosterShape(names: seq<string>, clientRolls: Rolls, npcRolls: Rolls)
    ensures var chars := HandlerRoster(names, clientRolls, npcRolls);
      && AtkPositive(chars) && AllAlive(chars) && AliveHpPositive(chars)
      && (forall i :: 0 <= i < |chars| ==> (chars[i].isClient <==> i < |names|))
      && (forall i :: 0 <= i < |names| ==> chars[i].name == names[i])
      && (forall i :: 0 <= i < |chars| ==> 50 <= chars[i].hp <= 100 && 20 <= chars[i].atk <= 40)
  {
  }

  /** No step of the ranking loop panics: `total - pos` never underflows
      (no position exceeds `total`) and every recorded index is a slot of
      the table. */
  ghost predicate RankingSafe(order: seq<nat>, total: nat) {
    |order| <= total + 1 && InRange(order, total)
  }

  /** The meaning of `index_to_rank`: slot i holds `total` minus the last
      position at which i was recorded, and 0 if i was never recorded. */
  ghost function RankTable(order: seq<nat>, total: nat): seq<nat>
    requires RankingSafe(order, total)
  {
    seq(total, i requires 0 <= i < total =>
      if i in order then total - LastIndexOf(order, i) else 0)
  }

  lemma RankTableAppend(s: seq<nat>, x: nat, total: nat)
    requires RankingSafe(s + [x], total) && x < total
    ensures RankingSafe(s, total)
    ensures RankTable(s + [x], total) == RankTable(s, total)[x := total - |s|]
  {
    assert forall k :: 0 <= k < |s| ==> s[k] == (s + [x])[k];
    forall i | 0 <= i < total
      ensures RankTable(s + [x], total)[i] == RankTable(s, total)[x := total - |s|][i]
    {
      if i in s + [x] {
        LastIndexOfAppend(s, x, i);
      }
    }
  }

  /** The ranking loop, from position `pos` on, writing into `table`. */
  function WriteRanks(order: seq<nat>, total: nat, pos: nat, table: seq<nat>): Option<seq<nat>>
    requires pos <= |order| && |table| == total
    decreases |order| - pos
  {
    if pos == |order| then Some(table)
    else if total < pos || total <= order[pos] then None
    else WriteRanks(order, total, pos + 1, table[order[pos] := total - pos])
  }

  lemma {:induction false} WriteRanksMeetsTable(order: seq<nat>, total: nat, pos: nat, table: seq<nat>)
    requires pos <= |order| && |table| == total
    requires RankingSafe(order[..pos], total) && table == RankTable(order[..pos], total)
    ensures WriteRanks(order, total, pos, table).Some? <==> RankingSafe(order, total)
    ensures RankingSafe(order, total) ==> WriteRanks(order, total, pos, table).value == RankTable(order, total)
    decreases |order| - pos
  {
    if pos == |order| {
      assert order[..pos] == order;
    } else if total < pos || total <= order[pos] {
      assert !InRange(order, total) || |order| > total + 1;
    } else {
      assert order[..pos + 1] == order[..pos] + [order[pos]];
      RankTableAppend(order[..pos], order[pos], total);
      WriteRanksMeetsTable(order, total, pos + 1, table[order[pos] := total - pos]);
    }
  }

  /** `index_to_rank`: `None` exactly when the loop would panic, and
      otherwise the table `RankTable` describes. */
  function IndexToRank(order: seq<nat>, total: nat): (r: Option<seq<nat>>)
    ensures r.Some? <==> RankingSafe(order, total)
    ensures r.Some? ==> r.value == RankTable(order, total)
  {
    var zeros := seq(total, _ => 0);
    assert order[..0] == [];
    assert zeros == RankTable(order[..0], total);
    WriteRanksMeetsTable(order, total, 0, zeros);
    WriteRanks(order, total, 0, zeros)
  }

  /** When the death order is a permutation of the roster, the ranking
      loop cannot panic, the index recorded at position `pos` gets rank
      `total - pos`, the ranks are pairwise distinct and cover 1..total,
      and the last recorded index (the survivor) gets rank 1. */
  lemma RanksAreDense(order: seq<nat>, total: nat)
    requires IsPermutation(order, total)
    ensures RankingSafe(order, total)
    ensures forall p :: 0 <= p < total ==> RankTable(order, total)[order[p]] == total - p
    ensures forall i :: 0 <= i < total ==> 1 <= RankTable(order, total)[i] <= total
    ensures forall i, j :: 0 <= i < j < total ==> RankTable(order, total)[i] != RankTable(order, total)[j]
    ensures total >= 1 ==> RankTable(order, total)[order[total - 1]] == 1
  {
    var t := RankTable(order, total);
    forall p | 0 <= p < total ensures t[order[p]] == total - p {
      assert order[p] in order;
      var k := LastIndexOf(order, order[p]);
      assert k == p;
    }
    forall i | 0 <= i < total ensures 1 <= t[i] <= total && i == order[LastIndexOf(order, i)] {
      PermutationCovers(order, total, i);
    }
  }

  /** Reading a rank back: the character of rank r is the one recorded at
      position total - r of a death order that is a permutation. */
  lemma RankLocates(order: seq<nat>, total: nat, i: nat)
    requires IsPermutation(order, total) && i < total
    ensures RankingSafe(order, total)
    ensures var r := RankTable(order, total)[i];
      1 <= r <= total && order[total - r] == i
  {
    RanksAreDense(order, total);
    PermutationCovers(order, total, i);
    var p :| 0 <= p < total && order[p] == i;
  }

  /** `client_results`: one entry per requested character, in request
      order, with its rank, its final hp, and the winner flag set when it is
      alive with rank 1. */
  function ClientResults(finals: seq<Character>, ranks: seq<nat>, count: nat): (rs: seq<BattleResult>)
    requires count <= |finals| == |ranks|
    ensures |rs| == count
  {
    seq(count, i requires 0 <= i < count =>
      BattleResult(finals[i].name, ranks[i], finals[i].hp, finals[i].isAlive && ranks[i] == 1))
  }

  /** The reply of `/battle`. */
  datatype Reply = Reply(totalChars: nat, clientResults: seq<BattleResult>)

  /** `battle_handler`, given the draws of the random number generator. */
  function BattleHandler(names: seq<string>, clientRolls: Rolls, npcRolls: Rolls, battleRolls: Rolls): (reply: Reply)
    ensures reply.totalChars == Max(|names|, Capacity)
    ensures |reply.clientResults| == |names|
    ensures forall i :: 0 <= i < |names| ==> reply.clientResults[i].name == names[i]
  {
    var chars := HandlerRoster(names, clientRolls, npcRolls);
    HandlerRosterShape(names, clientRolls, npcRolls);
    var total := |chars|;
    var b := Battle(chars, battleRolls);
    BattleOrderIsPermutation(chars, battleRolls);
    RanksAreDense(b.deathOrder, total);
    var ranks := IndexToRank(b.deathOrder, total).value;
    Reply(total, ClientResults(b.chars, ranks, |names|))
  }

  /** A rank table in which every slot holds a distinct rank in 1..total. */
  ghost predicate DenseRanks(ranks: seq<nat>, total: nat) {
    && |ranks| == total
    && (forall i :: 0 <= i < total ==> 1 <= ranks[i] <= total)
    && (forall i, j :: 0 <= i < j < total ==> ranks[i] != ranks[j])
  }

  /** The report built from a dense rank table in which exactly the living
      characters hold rank 1 gives every client a distinct rank, and the
      winner flag exactly to a client of rank 1, which is alive. */
  lemma ClientResultsReport(finals: seq<Character>, ranks: seq<nat>, count: nat)
    requires count <= |finals| == |ranks|
    requires DenseRanks(ranks, |finals|)
    requires forall i :: 0 <= i < |finals| ==> (finals[i].isAlive <==> ranks[i] == 1)
    requires AliveHpPositive(finals)
    ensures var rs := ClientResults(finals, ranks, count);
      && (forall i :: 0 <= i < count ==> rs[i].name == finals[i].name && rs[i].finalHp == finals[i].hp)
      && (forall i :: 0 <= i < count ==> rs[i].rank == ranks[i])
      && (forall i :: 0 <= i < count ==> (rs[i].isWinner <==> finals[i].isAlive))
      && (forall i :: 0 <= i < count ==> 1 <= rs[i].rank <= |finals|)
      && (forall i, j :: 0 <= i < j < count ==> rs[i].rank != rs[j].rank)
      && (forall i :: 0 <= i < count ==> (rs[i].isWinner <==> rs[i].rank == 1))
      && (forall i :: 0 <= i < count && rs[i].isWinner ==> rs[i].finalHp > 0)
  {
  }

  /** After a battle over a non-empty all-alive roster the rank table is
      dense, and rank 1 belongs exactly to the one living character. */
  lemma SurvivorHoldsRankOne(chars: seq<Character>, rolls: Rolls)
    requires AtkPositive(chars) && AllAlive(chars) && |chars| >= 1
    ensures IsPermutation(Battle(chars, rolls).deathOrder, |chars|)
    ensures DenseRanks(RankTable(Battle(chars, rolls).deathOrder, |chars|), |chars|)
    ensures forall i :: 0 <= i < |chars| ==>
      (Battle(chars, rolls).chars[i].isAlive <==> RankTable(Battle(chars, rolls).deathOrder, |chars|)[i] == 1)
  {
    var b := Battle(chars, rolls);
    var total := |chars|;
    BattleOrderIsPermutation(chars, rolls);
    BattleSurvivorIsLast(chars, rolls);
    RanksAreDense(b.deathOrder, total);
    var ranks := RankTable(b.deathOrder, total);
    var survivor := b.deathOrder[total - 1];
    forall i | 0 <= i < total ensures b.chars[i].isAlive <==> ranks[i] == 1 {
      if i < survivor {
        assert ranks[i] != ranks[survivor];
      } else if survivor < i {
        assert ranks[survivor] != ranks[i];
      }
    }
  }

  /** The report the handler builds from a battle over a legal roster:
      distinct ranks in 1..total, and the winner flag exactly on rank 1,
      which only a survivor with positive hp holds. Each client's entry is
      its own outcome: its final hp, the winner flag exactly when it
      survived, and the rank total - p where p is its position in the death
      order. */
  lemma BattleReport(chars: seq<Character>, rolls: Rolls, count: nat)
    requires AtkPositive(chars) && AllAlive(chars) && AliveHpPositive(chars)
    requires 1 <= |chars| && count <= |chars|
    ensures RankingSafe(Battle(chars, rolls).deathOrder, |chars|)
    ensures var b := Battle(chars, rolls);
      var rs := ClientResults(b.chars, RankTable(b.deathOrder, |chars|), count);
      && (forall i :: 0 <= i < count ==> 1 <= rs[i].rank <= |chars|)
      && (forall i, j :: 0 <= i < j < count ==> rs[i].rank != rs[j].rank)
      && (forall i :: 0 <= i < count ==> (rs[i].isWinner <==> rs[i].rank == 1))
      && (forall i :: 0 <= i < count && rs[i].isWinner ==> rs[i].finalHp > 0)
    ensures var b := Battle(chars, rolls);
      var rs := ClientResults(b.chars, RankTable(b.deathOrder, |chars|), count);
      && |b.deathOrder| == |chars|
      && (forall i :: 0 <= i < count ==>
            && rs[i].name == chars[i].name
            && rs[i].finalHp == b.chars[i].hp
            && (rs[i].isWinner <==> b.chars[i].isAlive)
            && rs[i].rank == RankTable(b.deathOrder, |chars|)[i]
            && 1 <= rs[i].rank <= |chars|
            && b.deathOrder[|chars| - rs[i].rank] == i)
  {
    var b := Battle(chars, rolls);
    SurvivorHoldsRankOne(chars, rolls);
    forall i | 0 <= i < count
      ensures var r := RankTable(b.deathOrder, |chars|)[i];
        1 <= r <= |chars| && b.deathOrder[|chars| - r] == i
    {
      RankLocates(b.deathOrder, |chars|, i);
    }
    assert AliveHpPositive(b.chars) by {
      FightKeepsHpPositive(Arena(chars, []), rolls, 0);
    }
    ClientResultsReport(b.chars, RankTable(b.deathOrder, |chars|), count);
  }

  /** The handler's reply is the client report of its battle, ranked by
      the reference rank table. */
  lemma HandlerReplyUnfolds(names: seq<string>, clientRolls: Rolls, npcRolls: Rolls, battleRolls: Rolls)
    ensures var chars := HandlerRoster(names, clientRolls, npcRolls);
      var b := Battle(chars, battleRolls);
      && RankingSafe(b.deathOrder, |chars|)
      && BattleHandler(names, clientRolls, npcRolls, battleRolls)
         == Reply(|chars|, ClientResults(b.chars, RankTable(b.deathOrder, |chars|), |names|))
  {
    var chars := HandlerRoster(names, clientRolls, npcRolls);
    HandlerRosterShape(names, clientRolls, npcRolls);
    var b := Battle(chars, battleRolls);
    BattleOrderIsPermutation(chars, battleRolls);
    RanksAreDense(b.deathOrder, |chars|);
  }

  /** What each client is told: a rank in 1..total, distinct from every
      other client's; and the winner flag exactly when its rank is 1, in
      which case it survived with positive hp. So at most one client is
      the winner. */
  lemma HandlerRanksClients(names: seq<string>, clientRolls: Rolls, npcRolls: Rolls, battleRolls: Rolls)
    ensures var reply := BattleHandler(names, clientRolls, npcRolls, battleRolls);
      var rs := reply.clientResults;
      && (forall i :: 0 <= i < |rs| ==> 1 <= rs[i].rank <= reply.totalChars)
      && (forall i, j :: 0 <= i < j < |rs| ==> rs[i].rank != rs[j].rank)
      && (forall i :: 0 <= i < |rs| ==> (rs[i].isWinner <==> rs[i].rank == 1))
      && (forall i :: 0 <= i < |rs| && rs[i].isWinner ==> rs[i].finalHp > 0)
  {
    var chars := HandlerRoster(names, clientRolls, npcRolls);
    HandlerRosterShape(names, clientRolls, npcRolls);
    BattleReport(chars, battleRolls, |names|);
    HandlerReplyUnfolds(names, clientRolls, npcRolls, battleRolls);
  }

  /** Client i's entry is its own outcome in the handler's battle: its
      final hp, the winner flag exactly when it survived, and a rank that
      points back to its own place in the death order (rank r is the index
      recorded at position total - r). */
  lemma HandlerReportsOwnOutcome(names: seq<string>, clientRolls: Rolls, npcRolls: Rolls, battleRolls: Rolls)
    ensures var reply := BattleHandler(names, clientRolls, npcRolls, battleRolls);
      var rs := reply.clientResults;
      var b := Battle(HandlerRoster(names, clientRolls, npcRolls), battleRolls);
      && |b.deathOrder| == reply.totalChars
      && (forall i :: 0 <= i < |rs| ==>
            && rs[i].finalHp == b.chars[i].hp
            && (rs[i].isWinner <==> b.chars[i].isAlive)
            && 1 <= rs[i].rank <= reply.totalChars
            && b.deathOrder[reply.totalChars - rs[i].rank] == i)
  {
    var chars := HandlerRoster(names, clientRolls, npcRolls);
    HandlerRosterShape(names, clientRolls, npcRolls);
    BattleReport(chars, battleRolls, |names|);
    HandlerReplyUnfolds(names, clientRolls, npcRolls, battleRolls);
  }
}
