/**
 The battle loop of `run_battle`, shared word for word by both servers.

 While at least two characters are alive, an attacker and a distinct
 defender are chosen among the living, the defender loses the attacker's
 atk in hp, and a defender whose hp reaches zero or below dies and is
 recorded in the death order. When at most one character is left alive,
 the survivors are appended to the death order.

 The random choice of the pair is an oracle (`Pick` from a `Rolls`
 stream); `PickCovers` shows that every distinct pair of living indices
 can be chosen.
 */
module Engine {
  import opened Characters
  import opened Seqs
  import Slices

  /** The loop state: the roster, and the indices recorded so far, in the
      order they were recorded. */
  datatype Arena = Arena(chars: seq<Character>, deathOrder: seq<nat>)

  /** Sum of `f` over the roster. */
  function SumOver(s: seq<Character>, f: Character -> nat): nat {
    if |s| == 0 then 0 else SumOver(s[..|s| - 1], f) + f(s[|s| - 1])
  }

  /** Replacing one slot changes the sum by that slot's difference only. */
  lemma {:induction false} SumOverUpdate(s: seq<Character>, d: nat, c: Character, f: Character -> nat)
    requires d < |s|
    ensures SumOver(s[d := c], f) == SumOver(s, f) - f(s[d]) + f(c)
  {
    var last := |s| - 1;
    if d == last {
      assert s[d := c][..last] == s[..last];
    } else {
      assert s[d := c][..last] == s[..last][d := c];
      SumOverUpdate(s[..last], d, c, f);
    }
  }

  function AliveFlag(c: Character): nat {
    if c.isAlive then 1 else 0
  }

  /** What a character still contributes to the loop's termination measure:
      its remaining positive hp plus one for the hit that kills it. */
  function Weight(c: Character): nat {
    if !c.isAlive then 0 else if c.hp > 0 then c.hp + 1 else 1
  }

  function AliveCount(s: seq<Character>): nat {
    SumOver(s, AliveFlag)
  }

  /** The termination measure of the battle loop. */
  function Potential(s: seq<Character>): nat {
    SumOver(s, Weight)
  }

  /** `alive_indices`: the indices of living characters, in roster order. */
  function AliveIndices(s: seq<Character>): (r: seq<nat>)
    ensures |r| == AliveCount(s)
    ensures forall k :: 0 <= k < |r| ==> r[k] < |s| && s[r[k]].isAlive
    ensures forall i :: 0 <= i < |s| && s[i].isAlive ==> i in r
    ensures Increasing(r)
  {
    if |s| == 0 then []
    else
      var init := AliveIndices(s[..|s| - 1]);
      assert forall i :: 0 <= i < |s| - 1 ==> s[..|s| - 1][i] == s[i];
      if s[|s| - 1].isAlive then init + [|s| - 1] else init
  }

  /** The attacker and defender drawn by one round: the attacker is a
      uniformly drawn living index and the defender one of the other living
      indices (the source redraws the defender until it differs from the
      attacker; here the offset is drawn directly). */
  function Pick(alive: seq<nat>, roll: (nat, nat)): (pair: (nat, nat))
    requires |alive| >= 2 && Increasing(alive)
    ensures pair.0 in alive && pair.1 in alive
    ensures pair.0 != pair.1
  {
    var m := |alive|;
    var p := roll.0 % m;
    var s := p + 1 + roll.1 % (m - 1);
    var q := if s < m then s else s - m;
    (alive[p], alive[q])
  }

  /** A raw roll already below the range width is kept as it is; proved
      apart so that the solver sees the fact without the context of
      `PickCovers`, where it does not find it. */
  lemma ModOfSmall(x: nat, m: nat)
    requires x < m
    ensures x % m == x
  {
  }

  /** Every ordered pair of distinct living indices is a possible draw. */
  lemma PickCovers(alive: seq<nat>, a: nat, d: nat)
    requires |alive| >= 2 && Increasing(alive)
    requires a in alive && d in alive && a != d
    ensures exists roll :: Pick(alive, roll) == (a, d)
  {
    var m := |alive|;
    var p :| 0 <= p < m && alive[p] == a;
    var q :| 0 <= q < m && alive[q] == d;
    var off: nat := if q > p then q - p - 1 else q + m - p - 1;
    assert off < m - 1;
    var roll := (p, off);
    ModOfSmall(p, m);
    ModOfSmall(off, m - 1);
    var s := p + 1 + off;
    assert (if s < m then s else s - m) == q;
    assert Pick(alive, roll) == (a, d);
  }

  /** One round: `two_mut` hands out the attacker and the defender; if both
      are alive the defender loses the attacker's atk, and a defender at
      hp <= 0 is marked dead and recorded. */
  function Hit(st: Arena, a: nat, d: nat): (r: Arena)
    requires a != d && a < |st.chars| && d < |st.chars|
    ensures |r.chars| == |st.chars|
    ensures forall i :: 0 <= i < |st.chars| && i != d ==> r.chars[i] == st.chars[i]
    ensures var c, c' := st.chars[d], r.chars[d];
      && c'.name == c.name && c'.atk == c.atk && c'.isClient == c.isClient
      && if st.chars[a].isAlive && c.isAlive
         then c'.hp == c.hp - st.chars[a].atk && c'.isAlive == (c'.hp > 0)
         else c' == c
    ensures r.deathOrder ==
      st.deathOrder + (if st.chars[d].isAlive && !r.chars[d].isAlive then [d] else [])
  {
    var views := Slices.TwoMut(st.chars, a, d);
    var attacker, defender := views.0, views.1;
    if attacker.isAlive && defender.isAlive then
      var hp := defender.hp - attacker.atk;
      var dies := hp <= 0 && defender.isAlive;
      var struck := defender.(hp := hp, isAlive := if dies then false else defender.isAlive);
      Arena(Slices.WriteBack(st.chars, a, d, attacker, struck),
            if dies then st.deathOrder + [d] else st.deathOrder)
    else
      st
  }

  /** A hit between two living characters with a positive-atk attacker
      strictly lowers the termination measure, and kills at most the
      defender. */
  lemma HitAccounting(st: Arena, a: nat, d: nat)
    requires a != d && a < |st.chars| && d < |st.chars|
    requires st.chars[a].isAlive && st.chars[d].isAlive && st.chars[a].atk > 0
    ensures Potential(Hit(st, a, d).chars) < Potential(st.chars)
    ensures AliveCount(Hit(st, a, d).chars)
         == AliveCount(st.chars) - (if Hit(st, a, d).chars[d].isAlive then 0 else 1)
  {
    var r := Hit(st, a, d);
    assert r.chars == st.chars[d := r.chars[d]];
    SumOverUpdate(st.chars, d, r.chars[d], Weight);
    SumOverUpdate(st.chars, d, r.chars[d], AliveFlag);
  }

  /** The battle loop. Each round draws its pair from `rolls(step)`. */
  function Fight(st: Arena, rolls: Rolls, step: nat): (r: Arena)
    requires AtkPositive(st.chars)
    ensures |r.chars| == |st.chars|
    ensures AtkPositive(r.chars)
    ensures AliveCount(r.chars) <= 1
    ensures AliveCount(st.chars) >= 1 ==> AliveCount(r.chars) == 1
    decreases Potential(st.chars)
  {
    var alive := AliveIndices(st.chars);
    if |alive| <= 1 then st
    else
      var pair := Pick(alive, rolls(step));
      HitAccounting(st, pair.0, pair.1);
      Fight(Hit(st, pair.0, pair.1), rolls, step + 1)
  }

  /** `now` is `init` after some rounds: only hp and liveness changed, and
      nobody came back to life. */
  ghost predicate Evolves(init: seq<Character>, now: seq<Character>) {
    && |now| == |init|
    && forall i :: 0 <= i < |init| ==>
         && now[i].name == init[i].name
         && now[i].atk == init[i].atk
         && now[i].isClient == init[i].isClient
         && (now[i].isAlive ==> init[i].isAlive)
  }

  /** The death order records each character that died since `init`, once,
      and nothing else. */
  ghost predicate Tracks(init: seq<Character>, st: Arena) {
    && Evolves(init, st.chars)
    && NoDup(st.deathOrder)
    && InRange(st.deathOrder, |init|)
    && forall i :: 0 <= i < |init| ==>
         (i in st.deathOrder <==> init[i].isAlive && !st.chars[i].isAlive)
  }

  lemma HitTracks(init: seq<Character>, st: Arena, a: nat, d: nat)
    requires a != d && a < |st.chars| && d < |st.chars|
    requires Tracks(init, st)
    ensures Tracks(init, Hit(st, a, d))
  {
    var r := Hit(st, a, d);
    if r.deathOrder != st.deathOrder {
      assert d !in st.deathOrder;
      NoDupConcat(st.deathOrder, [d]);
    }
  }

  lemma HitKeepsHpPositive(st: Arena, a: nat, d: nat)
    requires a != d && a < |st.chars| && d < |st.chars|
    requires AliveHpPositive(st.chars)
    ensures AliveHpPositive(Hit(st, a, d).chars)
  {
  }

  /** The loop keeps the death order exact: no index is recorded twice,
      and an index is recorded exactly when its character died. */
  lemma {:induction false} FightTracks(init: seq<Character>, st: Arena, rolls: Rolls, step: nat)
    requires AtkPositive(st.chars) && Tracks(init, st)
    ensures Tracks(init, Fight(st, rolls, step))
    decreases Potential(st.chars)
  {
    var alive := AliveIndices(st.chars);
    if |alive| > 1 {
      var pair := Pick(alive, rolls(step));
      HitAccounting(st, pair.0, pair.1);
      HitTracks(init, st, pair.0, pair.1);
      FightTracks(init, Hit(st, pair.0, pair.1), rolls, step + 1);
    }
  }

  /** The loop keeps every living character at positive hp. */
  lemma {:induction false} FightKeepsHpPositive(st: Arena, rolls: Rolls, step: nat)
    requires AtkPositive(st.chars) && AliveHpPositive(st.chars)
    ensures AliveHpPositive(Fight(st, rolls, step).chars)
    decreases Potential(st.chars)
  {
    var alive := AliveIndices(st.chars);
    if |alive| > 1 {
      var pair := Pick(alive, rolls(step));
      HitAccounting(st, pair.0, pair.1);
      HitKeepsHpPositive(st, pair.0, pair.1);
      FightKeepsHpPositive(Hit(st, pair.0, pair.1), rolls, step + 1);
    }
  }

  /** `run_battle` up to the survivor pass: the final roster and the death
      order with the survivors appended. */
  function Battle(chars: seq<Character>, rolls: Rolls): (r: Arena)
    requires AtkPositive(chars)
    ensures Evolves(chars, r.chars)
    ensures NoDup(r.deathOrder) && InRange(r.deathOrder, |chars|)
    ensures AliveCount(r.chars) <= 1
  {
    var start := Arena(chars, []);
    var f := Fight(start, rolls, 0);
    FightTracks(chars, start, rolls, 0);
    var survivors := AliveIndices(f.chars);
    NoDupConcat(f.deathOrder, survivors);
    Arena(f.chars, f.deathOrder + survivors)
  }

  /** The headline theorem: when everyone starts alive, the death order
      lists every roster index exactly once, so it has one entry per
      character. */
  lemma BattleOrderIsPermutation(chars: seq<Character>, rolls: Rolls)
    requires AtkPositive(chars) && AllAlive(chars)
    ensures IsPermutation(Battle(chars, rolls).deathOrder, |chars|)
  {
    var start := Arena(chars, []);
    var f := Fight(start, rolls, 0);
    FightTracks(chars, start, rolls, 0);
    var order := Battle(chars, rolls).deathOrder;
    assert order == f.deathOrder + AliveIndices(f.chars);
    forall i | 0 <= i < |chars| ensures i in order {
      if f.chars[i].isAlive {
        assert i in AliveIndices(f.chars);
      } else {
        assert i in f.deathOrder;
      }
    }
    CoverIsPermutation(order, |chars|);
  }

  /** With a non-empty all-alive roster exactly one character survives, and
      it is the last entry of the death order; with positive starting hp its
      final hp is positive. */
  lemma BattleSurvivorIsLast(chars: seq<Character>, rolls: Rolls)
    requires AtkPositive(chars) && AllAlive(chars) && |chars| >= 1
    ensures var r := Battle(chars, rolls);
      && |r.deathOrder| == |chars|
      && r.chars[r.deathOrder[|chars| - 1]].isAlive
      && (forall i :: 0 <= i < |chars| && i != r.deathOrder[|chars| - 1] ==> !r.chars[i].isAlive)
      && (AliveHpPositive(chars) ==> r.chars[r.deathOrder[|chars| - 1]].hp > 0)
  {
    BattleOrderIsPermutation(chars, rolls);
    var start := Arena(chars, []);
    var f := Fight(start, rolls, 0);
    assert 0 in AliveIndices(chars);
    var survivors := AliveIndices(f.chars);
    assert |survivors| == 1;
    var r := Battle(chars, rolls);
    assert r.deathOrder == f.deathOrder + survivors;
    assert r.deathOrder[|chars| - 1] == survivors[0];
    forall i | 0 <= i < |chars| && r.chars[i].isAlive
      ensures i == r.deathOrder[|chars| - 1]
    {
      assert i in survivors;
    }
    if AliveHpPositive(chars) {
      FightKeepsHpPositive(start, rolls, 0);
    }
  }
}
