/** The flags of the 26 letter keys, set by the keyboard interrupt and cleared by the game. */
module Keyboard {
  import opened Letters

  const LETTER_CODE: seq<int> :=
    [30, 48, 46, 32, 18, 33, 34, 35, 23, 36,
     37, 38, 50, 49, 24, 25, 16, 19, 31, 20,
     22, 47, 17, 45, 21, 44]

  type Keys = s: seq<bool> | |s| == 26 witness seq(26, i => false)

  function NoKeys(): Keys {
    seq(26, i => false)
  }

  function Pressed(keys: Keys, scanCode: int): Keys {
    seq(26, i requires 0 <= i < 26 => keys[i] || LETTER_CODE[i] == scanCode)
  }

  /** A scan code sets at most one flag, so a key press never stands for two letters. */
  lemma OneKeyPerCode(keys: Keys, scanCode: int, i: nat, j: nat)
    requires i < j < 26
    requires !keys[i] && !keys[j]
    ensures !Pressed(keys, scanCode)[i] || !Pressed(keys, scanCode)[j]
  {
    DistinctCodes(i, j);
  }

  /** The rows of letters on the keyboard, each from its first scan code on. */
  const ROWS: seq<(string, int)> := [("QWERTYUIOP", 16), ("ASDFGHJKL", 30), ("ZXCVBNM", 44)]

  function IsLetter(c: char): bool {
    'A' <= c <= 'Z'
  }

  /** The code table is the keyboard: the i-th key of a row has the i-th code from the first of the row. */
  lemma CodesFollowRows(r: nat, i: nat)
    requires r < |ROWS| && i < |ROWS[r].0|
    ensures IsLetter(ROWS[r].0[i]) && LETTER_CODE[ROWS[r].0[i] as int - 'A' as int] == ROWS[r].1 + i
  {
  }

  /** A scan code from a row sets the flag of the key there, and every other flag is kept. */
  lemma PressedByRow(keys: Keys, r: nat, i: nat, k: nat)
    requires r < |ROWS| && i < |ROWS[r].0| && k < 26
    ensures var key := ROWS[r].0[i] as int - 'A' as int;
            Pressed(keys, ROWS[r].1 + i)[k] == if k == key then true else keys[k]
  {
    hide LETTER_CODE, ROWS;
    CodesFollowRows(r, i);
    var key := ROWS[r].0[i] as int - 'A' as int;
    if k != key {
      DistinctCodes(k, key);
    }
  }

  lemma DistinctCodes(i: nat, j: nat)
    requires i < 26 && j < 26 && i != j
    ensures LETTER_CODE[i] != LETTER_CODE[j]
  {
  }

  class KeyState {
    const pressed: array<bool>
    var keyCode: int

    ghost predicate Valid()
      reads this, pressed
    {
      pressed.Length == NR_KEYS
    }

    constructor ()
      ensures Valid() && fresh(pressed)
      ensures pressed[..] == NoKeys() && keyCode == 0
    {
      pressed := new bool[26](i => false);
      keyCode := 0;
    }

    method PressKey(scanCode: int)
      requires Valid()
      modifies pressed
      ensures pressed[..] == Pressed(old(pressed[..]), scanCode)
    {
      for i := 0 to 26
        invariant forall k | 0 <= k < i :: pressed[k] == (old(pressed[k]) || LETTER_CODE[k] == scanCode)
        invariant forall k | i <= k < 26 :: pressed[k] == old(pressed[k])
      {
        if LETTER_CODE[i] == scanCode {
          pressed[i] := true;
        }
      }
    }

    method ReleaseKey(index: int)
      requires Valid() && 0 <= index < 26
      modifies pressed
      ensures pressed[..] == old(pressed[..])[index := false]
    {
      pressed[index] := false;
    }

    method QueryKey(index: int) returns (down: bool)
      requires Valid() && 0 <= index < 26
      ensures down == pressed[index]
    {
      down := pressed[index];
    }

    /** The keyboard interrupt, with the byte read from port 0x60. */
    method KeyboardEvent(scanCode: int)
      requires Valid()
      modifies this`keyCode, pressed
      ensures keyCode == scanCode && pressed[..] == Pressed(old(pressed[..]), scanCode)
    {
      keyCode := scanCode;
      PressKey(keyCode);
    }
  }
}
