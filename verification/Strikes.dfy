/** Which letter a key press strikes, and what draining all pending key presses comes to. */
module Strikes {
  import opened Letters
  import opened Keyboard

  predicate Candidate(l: Letter, keys: Keys) {
    l.v > 0 && 0 <= l.text < 26 && keys[l.text]
  }

  /** The scan of update_keypress: the first candidate that no other is below, or -1. */
  function Target(s: seq<Letter>, keys: Keys): (t: int)
    ensures -1 <= t < |s|
  {
    if s == [] then -1
    else
      var last := s[|s| - 1];
      var t := Target(s[..|s| - 1], keys);
      if Candidate(last, keys) && (t == -1 || last.x > s[t].x) then |s| - 1 else t
  }

  ghost predicate IsTarget(s: seq<Letter>, keys: Keys, t: nat) {
    && t < |s| && Candidate(s[t], keys)
    && forall i | 0 <= i < |s| && Candidate(s[i], keys) :: s[i].x < s[t].x || (s[i].x == s[t].x && t <= i)
  }

  lemma {:induction false} TargetIsLowest(s: seq<Letter>, keys: Keys)
    ensures var t := Target(s, keys);
            if t == -1 then forall i | 0 <= i < |s| :: !Candidate(s[i], keys) else IsTarget(s, keys, t)
  {
    if s != [] {
      var front := s[..|s| - 1];
      TargetIsLowest(front, keys);
      assert forall i | 0 <= i < |front| :: front[i] == s[i];
      if Target(front, keys) != -1 {
        assert Candidate(front[Target(front, keys)], keys);
      }
    }
  }

  function StrikeAt(s: seq<Letter>, t: nat): seq<Letter>
    requires t < |s|
  {
    s[t := StrikeLetter(s[t])]
  }

  /** Turning a falling letter round makes one falling letter less and one struck letter more. */
  lemma {:induction false} StrikeCounts(s: seq<Letter>, t: nat)
    requires t < |s| && s[t].v > 0
    ensures Falling(StrikeAt(s, t)) == Falling(s) - 1
    ensures Struck(StrikeAt(s, t)) == Struck(s) + 1
  {
    var s', front := StrikeAt(s, t), s[..|s| - 1];
    if t == |s| - 1 {
      assert s'[..|s| - 1] == front;
    } else {
      assert s'[..|s| - 1] == StrikeAt(front, t);
      StrikeCounts(front, t);
    }
  }

  /** The letters and flags after `while (update_keypress());`. */
  function Drained(s: seq<Letter>, keys: Keys): (seq<Letter>, Keys)
    decreases Falling(s)
  {
    var t := Target(s, keys);
    if t == -1 then (s, keys)
    else
      TargetFalls(s, keys);
      Drained(StrikeAt(s, t), keys[s[t].text := false])
  }

  lemma TargetFalls(s: seq<Letter>, keys: Keys)
    requires Target(s, keys) != -1
    ensures Candidate(s[Target(s, keys)], keys)
    ensures Falling(StrikeAt(s, Target(s, keys))) < Falling(s)
  {
    TargetIsLowest(s, keys);
    StrikeCounts(s, Target(s, keys));
  }

  /** Of the falling letters with the same text, i is the lowest, and the first of those. */
  ghost predicate LowestOfItsText(s: seq<Letter>, i: nat) {
    && i < |s| && s[i].v > 0
    && forall j | 0 <= j < |s| && s[j].v > 0 && s[j].text == s[i].text ::
         s[j].x < s[i].x || (s[j].x == s[i].x && i <= j)
  }

  ghost predicate FallingWithText(s: seq<Letter>, c: int) {
    exists i | 0 <= i < |s| :: s[i].v > 0 && s[i].text == c
  }

  /** Striking t leaves the lowest letters of the other texts what they were. */
  lemma OtherTextsUnaffected(s: seq<Letter>, t: nat, i: nat)
    requires t < |s| && s[t].v > 0 && i < |s| && s[i].text != s[t].text
    ensures LowestOfItsText(s, i) <==> LowestOfItsText(StrikeAt(s, t), i)
  {
    var s' := StrikeAt(s, t);
    assert s'[i] == s[i];
    forall j | 0 <= j < |s| && s[j].text == s[i].text
      ensures s'[j] == s[j]
    {
    }
  }

  lemma OtherKeysUnaffected(s: seq<Letter>, t: nat, c: int)
    requires t < |s| && c != s[t].text
    ensures FallingWithText(s, c) <==> FallingWithText(StrikeAt(s, t), c)
  {
    if FallingWithText(s, c) {
      var i :| 0 <= i < |s| && s[i].v > 0 && s[i].text == c;
      assert StrikeAt(s, t)[i] == s[i];
    }
  }

  lemma TargetIsLowestOfItsText(s: seq<Letter>, keys: Keys, t: nat, i: nat)
    requires IsTarget(s, keys, t) && i < |s| && s[i].text == s[t].text
    ensures LowestOfItsText(s, i) <==> i == t
  {
    assert forall j | 0 <= j < |s| && s[j].v > 0 && s[j].text == s[t].text :: Candidate(s[j], keys);
  }

  /** Draining strikes, for each pressed key, exactly the lowest falling letter of that key, releases exactly the keys
      that had one, and leaves everything else alone, whatever the order of the strikes. */
  lemma {:induction false} DrainStrikesLowestPerKey(s: seq<Letter>, keys: Keys)
    requires AllInPlay(s)
    ensures var (s', keys') := Drained(s, keys);
            && |s'| == |s|
            && (forall i | 0 <= i < |s| ::
                  s'[i] == if keys[s[i].text] && LowestOfItsText(s, i) then StrikeLetter(s[i]) else s[i])
            && (forall c | 0 <= c < 26 :: keys'[c] == (keys[c] && !FallingWithText(s, c)))
    decreases Falling(s)
  {
    hide Target;
    var t := Target(s, keys);
    TargetIsLowest(s, keys);
    if t == -1 {
      assert forall i | 0 <= i < |s| :: !Candidate(s[i], keys);
    } else {
      TargetFalls(s, keys);
      var c0 := s[t].text;
      var s1, keys1 := StrikeAt(s, t), keys[c0 := false];
      DrainStrikesLowestPerKey(s1, keys1);
      forall i | 0 <= i < |s|
        ensures s[i].text == c0 ==> (LowestOfItsText(s, i) <==> i == t)
        ensures s[i].text != c0 ==> (LowestOfItsText(s, i) <==> LowestOfItsText(s1, i))
      {
        if s[i].text == c0 {
          TargetIsLowestOfItsText(s, keys, t, i);
        } else {
          OtherTextsUnaffected(s, t, i);
        }
      }
      assert FallingWithText(s, c0);
      forall c | 0 <= c < 26 && c != c0
        ensures FallingWithText(s, c) <==> FallingWithText(s1, c)
      {
        OtherKeysUnaffected(s, t, c);
      }
    }
  }

  /** Draining keeps every letter in play, turns falling letters into struck ones one for one, and leaves no
      candidate. */
  lemma {:induction false} DrainConserves(s: seq<Letter>, keys: Keys)
    requires AllInPlay(s)
    ensures var (s', keys') := Drained(s, keys);
            && AllInPlay(s') && |s'| == |s|
            && Struck(s') + Falling(s') == Struck(s) + Falling(s)
            && Target(s', keys') == -1
    decreases Falling(s)
  {
    var t := Target(s, keys);
    if t != -1 {
      TargetFalls(s, keys);
      StrikeCounts(s, t);
      StrikeNeverProlongs(s[t]);
      DrainConserves(StrikeAt(s, t), keys[s[t].text := false]);
    }
  }
}
