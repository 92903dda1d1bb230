/** Why the screen never fills up: letters are created at least 33 updates apart and stay at most 449. */
module Spacing {
  import opened MachineInt
  import opened Letters
  import opened Keyboard
  import opened Strikes

  /** Ticks between two creations and between two updates. */
  function CreatePeriod(hz: int): int {
    hz / 3
  }

  function UpdatePeriod(hz: int): int {
    hz / 100
  }

  /** The number of update ticks among 0 .. n - 1. */
  function UpdatesBefore(hz: int, n: int): int
    requires hz >= 100
  {
    (n + UpdatePeriod(hz) - 1) / UpdatePeriod(hz)
  }

  /** The last creation tick at or before n. */
  function LastCreation(hz: int, n: int): int
    requires hz >= 100
  {
    LastMultiple(CreatePeriod(hz), n)
  }

  /** The last multiple of c at or before n. */
  function LastMultiple(c: int, n: int): int
    requires c >= 1
  {
    n / c * c
  }

  lemma LastMultipleStep(c: int, n: int)
    requires c >= 1
    ensures n % c == 0 ==> LastMultiple(c, n) == n && LastMultiple(c, n - 1) == n - c
    ensures n % c != 0 ==> LastMultiple(c, n) == LastMultiple(c, n - 1)
  {
    var q := n / c;
    EuclideanRest(n, c);
    Distribute(q, 1, c);
    assert n % c == n - q * c;
    QuotientIs(n - 1, if n % c == 0 then q - 1 else q, c);
  }

  lemma IsLastMultiple(c: int, n: int, m: int)
    requires c >= 1 && m % c == 0 && m <= n < m + c
    ensures m == LastMultiple(c, n)
  {
    EuclideanRest(m, c);
    assert m == m / c * c;
    QuotientIs(n, m / c, c);
  }

  lemma CreatePeriodAtLeast33Updates(hz: int)
    requires hz >= 100
    ensures UpdatePeriod(hz) >= 1 && CreatePeriod(hz) >= 33 * UpdatePeriod(hz)
  {
  }

  lemma UpdatesInCreatePeriod(hz: int, n: int)
    requires hz >= 100
    ensures UpdatesBefore(hz, n + CreatePeriod(hz)) >= UpdatesBefore(hz, n) + 33
  {
    var u := UpdatePeriod(hz);
    CreatePeriodAtLeast33Updates(hz);
    QuotientShift(n + u - 1, 33, u);
    QuotientMonotone(n + u - 1 + 33 * u, n + CreatePeriod(hz) + u - 1, u);
  }

  lemma UpdateTick(hz: int, n: int)
    requires hz >= 100 && n >= 0
    ensures UpdatesBefore(hz, n + 1) == UpdatesBefore(hz, n) + if n % UpdatePeriod(hz) == 0 then 1 else 0
  {
    var u := UpdatePeriod(hz);
    var q := n / u;
    EuclideanRest(n, u);
    Distribute(q, -1, u);
    assert n % u == n - q * u;
    QuotientIs(n + u, q + 1, u);
    QuotientIs(n + u - 1, if n % u == 0 then q else q + 1, u);
  }

  lemma CreationTick(hz: int, n: int)
    requires hz >= 100 && n >= 1
    ensures n % CreatePeriod(hz) == 0 ==> LastCreation(hz, n) == n && LastCreation(hz, n - 1) == n - CreatePeriod(hz)
    ensures n % CreatePeriod(hz) != 0 ==> LastCreation(hz, n) == LastCreation(hz, n - 1)
  {
    LastMultipleStep(CreatePeriod(hz), n);
  }

  // ----- The letters

  /** The i-th newest letter has used up at least 33 updates for each letter created after it, and u more. */
  ghost predicate Spaced(s: seq<Letter>, u: int) {
    forall i | 0 <= i < |s| :: Remaining(s[i]) + 33 * i + u <= 449
  }

  lemma AtMostFourteen(s: seq<Letter>, u: int)
    requires AllInPlay(s) && Spaced(s, u) && u >= 0
    ensures |s| <= 14
  {
    if |s| > 14 {
      MovedLetter(s[14]);
      assert false;
    }
  }

  lemma CreationSpaced(s: seq<Letter>, u: int, l: Letter)
    requires Spaced(s, u) && u >= 33 && l.x == 0 && l.v > 0
    ensures Spaced([l] + s, 0)
  {
    var s' := [l] + s;
    forall i | 0 <= i < |s'|
      ensures Remaining(s'[i]) + 33 * i <= 449
    {
      assert i > 0 ==> s'[i] == s[i - 1];
    }
  }

  lemma {:induction false} UpdateSpaced(s: seq<Letter>, u: int)
    requires AllInPlay(s) && Spaced(s, u)
    ensures Spaced(Advance(s), u + 1) && |Advance(s)| <= |s|
  {
    if s != [] {
      var front := s[..|s| - 1];
      UpdateSpaced(front, u);
      MovedLetter(s[|s| - 1]);
    }
  }

  lemma StrikeSpaced(s: seq<Letter>, u: int, t: nat)
    requires AllInPlay(s) && Spaced(s, u) && t < |s| && s[t].v > 0
    ensures AllInPlay(StrikeAt(s, t)) && Spaced(StrikeAt(s, t), u)
  {
    StrikeNeverProlongs(s[t]);
  }

  /** Draining the key presses keeps the letters spaced, so the catch-up loop may follow it. */
  lemma {:induction false} DrainSpaced(s: seq<Letter>, keys: Keys, u: int)
    requires AllInPlay(s) && Spaced(s, u)
    ensures var (s', _) := Drained(s, keys);
            AllInPlay(s') && Spaced(s', u) && |s'| == |s|
    decreases Falling(s)
  {
    hide Spaced, AllInPlay, Target;
    var t := Target(s, keys);
    if t != -1 {
      TargetFalls(s, keys);
      StrikeSpaced(s, u, t);
      DrainSpaced(StrikeAt(s, t), keys[s[t].text := false], u);
    }
  }
}
