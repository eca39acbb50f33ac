/**
 The records shared by both servers: a battle participant, the result it
 is given, the roster capacity, and the modelling of random draws.

 Randomness is an oracle: a `Rolls` stream hands out pairs of raw natural
 numbers, and `GenRange` turns one raw number into a value of a half-open
 range, the way `gen_range(lo..hi)` does. `GenRangeCovers` shows that every
 value of the range is reachable, so the oracle loses no behaviour.
 */
module Characters {

  /** Target roster size: fillers are added until the roster has this many
      entries. */
  const Capacity: nat := 100

  /** A battle participant. Only `hp` and `isAlive` change during a battle. */
  datatype Character = Character(
    name: string,
    hp: int,
    atk: int,
    isAlive: bool,
    isClient: bool)

  /** What a participant is told after the battle; rank 1 is the winner. */
  datatype BattleResult = BattleResult(
    name: string,
    rank: nat,
    finalHp: int,
    isWinner: bool)

  /** A stream of pairs of raw random numbers, indexed by draw number. */
  type Rolls = nat -> (nat, nat)

  /** The value `gen_range(lo..hi)` produces from the raw draw `raw`. */
  function GenRange(lo: int, hi: int, raw: nat): (r: int)
    requires lo < hi
    ensures lo <= r < hi
  {
    lo + raw % (hi - lo)
  }

  /** Every value of [lo, hi) is produced by some raw draw. */
  lemma GenRangeCovers(lo: int, hi: int, v: int)
    requires lo <= v < hi
    ensures exists raw: nat :: GenRange(lo, hi, raw) == v
  {
    var raw: nat := v - lo;
    assert GenRange(lo, hi, raw) == v;
  }

  function Max(a: nat, b: nat): nat {
    if a < b then b else a
  }

  function Digit(d: nat): (c: char)
    requires d < 10
    ensures '0' <= c <= '9'
  {
    (48 + d) as char
  }

  /** Decimal rendering of a number, as `format!("{}", n)` prints it: digits
      only, and no leading zero except for zero itself. */
  function NatToString(n: nat): (s: string)
    ensures |s| >= 1
    ensures forall k :: 0 <= k < |s| ==> '0' <= s[k] <= '9'
    ensures s[0] == '0' <==> n == 0
  {
    if n < 10 then [Digit(n)] else NatToString(n / 10) + [Digit(n % 10)]
  }

  /** A string of decimal digits read as a number, most significant digit
      first. */
  function ParseDecimal(s: string): nat
    requires forall k :: 0 <= k < |s| ==> '0' <= s[k] <= '9'
  {
    if |s| == 0 then 0
    else ParseDecimal(s[..|s| - 1]) * 10 + (s[|s| - 1] as int - '0' as int)
  }

  /** Reading the rendering back gives the number: `NatToString` is the
      decimal notation of its argument. */
  lemma {:induction false} NatToStringRoundTrip(n: nat)
    ensures ParseDecimal(NatToString(n)) == n
  {
    if n >= 10 {
      var s := NatToString(n);
      var init := NatToString(n / 10);
      assert s[..|s| - 1] == init;
      NatToStringRoundTrip(n / 10);
    }
  }

  /** Different numbers render differently. */
  lemma NatToStringInjective(a: nat, b: nat)
    ensures NatToString(a) == NatToString(b) ==> a == b
  {
    NatToStringRoundTrip(a);
    NatToStringRoundTrip(b);
  }

  /** Every character's attack is positive: the battle terminates. */
  ghost predicate AtkPositive(s: seq<Character>) {
    forall i :: 0 <= i < |s| ==> s[i].atk > 0
  }

  /** Every character enters the battle alive. */
  ghost predicate AllAlive(s: seq<Character>) {
    forall i :: 0 <= i < |s| ==> s[i].isAlive
  }

  /** Every living character has positive hp. */
  ghost predicate AliveHpPositive(s: seq<Character>) {
    forall i :: 0 <= i < |s| ==> s[i].isAlive ==> s[i].hp > 0
  }
}
