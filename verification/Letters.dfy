/** The letters of the typing game as values: how one moves, when it leaves, and how long it can stay. */
module Letters {
  import opened MachineInt
  import opened FixedPoint
  import opened SingleFloat

  const SCR_WIDTH := 320
  const SCR_HEIGHT: Int32 := 200
  const NR_KEYS := 26

  /** x is the vertical position, measured down from the top, and v the speed downward. */
  datatype Letter = Letter(x: Float, y: int, text: int, v: Float)

  /** f2F(7.9), int2F(SCR_HEIGHT), -int2F(3) and -int2F(100). */
  const GLYPH: Float := 517734
  const BOTTOM: Float := 13107200
  const STRUCK_SPEED: Float := -196608
  const ABOVE_ALL: Float := -6553600

  /** The greatest x a letter can have between updates. */
  const LOWEST := 12589466

  lemma ScreenConstants()
    ensures GLYPH == ToFixed(0x40FC_CCCD) && BOTTOM == Int2F(SCR_HEIGHT) && STRUCK_SPEED == Wrap32(0 - Int2F(3))
    ensures ABOVE_ALL == Wrap32(0 - Int2F(100))
    ensures LOWEST == BOTTOM - GLYPH
  {
    Literals();
  }

  /** What holds of every live letter between updates. */
  predicate InPlay(l: Letter) {
    && 0 <= l.x <= LOWEST
    && 0 <= l.text < NR_KEYS
    && (l.v == STRUCK_SPEED || 32768 <= l.v < ONE)
  }

  // ----- Creation

  /** The speed given to a new letter from one result of rand(). */
  function NewSpeed(r: nat): Float {
    var half := ToFixed(0x3F00_0000);
    Wrap32(FDivF(Int2F(r % 1000), Int2F(2000)).GetOr(0) + half)
  }

  function NewLetter(ry: nat, rv: nat, rt: nat): Letter {
    Letter(0, ry % (SCR_WIDTH / 8 - 2) * 8 + 8, rt % NR_KEYS, NewSpeed(rv))
  }

  lemma RatioFits(r: int)
    requires 0 <= r < 1000
    ensures FDivF(r * ONE, 2000 * ONE) == Some(r * ONE / 2000)
  {
    var q := r * ONE / 2000;
    assert ONE * (r * ONE) - q * (2000 * ONE) == ONE * (r * ONE - q * 2000);
    FDivFIsTruncatedQuotient(r * ONE, 2000 * ONE, q);
  }

  /** The division by 2000.0 never faults, and the sum never wraps. */
  lemma NewSpeedRange(rv: nat)
    ensures FDivF(Int2F(rv % 1000), Int2F(2000)).Some?
    ensures NewSpeed(rv) == rv % 1000 * ONE / 2000 + 32768
    ensures 32768 <= NewSpeed(rv) < ONE
  {
    var r := rv % 1000;
    assert Int2F(r) == r * ONE && Int2F(2000) == 2000 * ONE;
    RatioFits(r);
    Literals();
  }

  /** A new letter is in play, falling at half a pixel to one pixel per update. */
  lemma NewLetterInPlay(ry: nat, rv: nat, rt: nat)
    ensures InPlay(NewLetter(ry, rv, rt)) && NewLetter(ry, rv, rt).v > 0
  {
    NewSpeedRange(rv);
  }

  /** It starts at the top, in one of the 38 columns of 8 pixels that leave a column free at either side. */
  lemma NewLetterPlace(ry: nat, rv: nat, rt: nat)
    ensures var l := NewLetter(ry, rv, rt);
            && l.x == 0 && l.text == rt % 26
            && 8 <= l.y <= SCR_WIDTH - 16 && l.y % 8 == 0 && l.y / 8 == ry % 38 + 1
  {
    hide NewSpeed;
  }

  // ----- One update

  function Move(l: Letter): Letter {
    l.(x := Wrap32(l.x + l.v))
  }

  predicate FlewOut(l: Letter) {
    l.x < 0
  }

  predicate Leaves(l: Letter) {
    FlewOut(l) || l.x + GLYPH > BOTTOM
  }

  ghost predicate AllInPlay(s: seq<Letter>) {
    forall i | 0 <= i < |s| :: InPlay(s[i])
  }

  /** All letters moved once, in order, without those that leave. */
  function Advance(s: seq<Letter>): seq<Letter> {
    if s == [] then []
    else
      var l := Move(s[|s| - 1]);
      Advance(s[..|s| - 1]) + if Leaves(l) then [] else [l]
  }

  /** How many leave at the top, and how many at the bottom. */
  function Hits(s: seq<Letter>): nat {
    if s == [] then 0 else Hits(s[..|s| - 1]) + if FlewOut(Move(s[|s| - 1])) then 1 else 0
  }

  function Misses(s: seq<Letter>): nat {
    if s == [] then 0
    else
      var l := Move(s[|s| - 1]);
      Misses(s[..|s| - 1]) + if Leaves(l) && !FlewOut(l) then 1 else 0
  }

  function Struck(s: seq<Letter>): nat {
    if s == [] then 0 else Struck(s[..|s| - 1]) + if s[|s| - 1].v < 0 then 1 else 0
  }

  function Falling(s: seq<Letter>): nat {
    if s == [] then 0 else Falling(s[..|s| - 1]) + if s[|s| - 1].v > 0 then 1 else 0
  }

  lemma MovedLetter(l: Letter)
    requires InPlay(l)
    ensures Move(l).x == l.x + l.v
    ensures !Leaves(Move(l)) ==> InPlay(Move(l))
    ensures FlewOut(Move(l)) ==> l.v < 0
    ensures Leaves(Move(l)) && !FlewOut(Move(l)) ==> l.v > 0
    ensures !Leaves(Move(l)) ==> 1 <= Remaining(Move(l)) < Remaining(l)
    ensures Remaining(l) >= 1
  {
  }

  /** An update keeps the invariant, loses only what it counts, and counts as hits only struck letters and as misses
      only unstruck ones. */
  lemma {:induction false} AdvanceConserves(s: seq<Letter>)
    requires AllInPlay(s)
    ensures AllInPlay(Advance(s))
    ensures |s| == |Advance(s)| + Hits(s) + Misses(s)
    ensures Struck(s) == Struck(Advance(s)) + Hits(s)
    ensures Falling(s) == Falling(Advance(s)) + Misses(s)
  {
    if s != [] {
      var front, l := s[..|s| - 1], Move(s[|s| - 1]);
      AdvanceConserves(front);
      MovedLetter(s[|s| - 1]);
      if Leaves(l) {
        assert Advance(s) == Advance(front);
      } else {
        assert Advance(s)[..|Advance(s)| - 1] == Advance(front);
      }
    }
  }

  function Without<T>(s: seq<T>, k: nat): seq<T>
    requires k < |s|
  {
    s[..k] + s[k + 1..]
  }

  /** The list in the middle of an update: the first j letters done, the others not. */
  function Halfway(s: seq<Letter>, j: nat): seq<Letter>
    requires j <= |s|
  {
    Advance(s[..j]) + s[j..]
  }

  lemma WalkStarts(s: seq<Letter>)
    ensures Advance(s[..0]) == [] && Halfway(s, 0) == s && Hits(s[..0]) == Misses(s[..0]) == 0
  {
    assert s[0..] == s;
  }

  /** One more letter of the walk, which stands at position |Advance(s[..j])| of the list. */
  lemma WalkStep(s: seq<Letter>, j: nat)
    requires j < |s|
    ensures var k := |Advance(s[..j])|;
            var l := Move(s[j]);
            && k < |Halfway(s, j)| && Halfway(s, j)[k] == s[j]
            && (Leaves(l) ==> Halfway(s, j + 1) == Without(Halfway(s, j), k) && |Advance(s[..j + 1])| == k)
            && (!Leaves(l) ==> Halfway(s, j + 1) == Halfway(s, j)[k := l] && |Advance(s[..j + 1])| == k + 1)
    ensures Hits(s[..j + 1]) == Hits(s[..j]) + if FlewOut(Move(s[j])) then 1 else 0
    ensures Misses(s[..j + 1]) == Misses(s[..j]) + if Leaves(Move(s[j])) && !FlewOut(Move(s[j])) then 1 else 0
  {
    assert s[..j + 1][..j] == s[..j];
    assert s[j..] == [s[j]] + s[j + 1..];
  }

  /** The positions in s of the letters that an update keeps. */
  function Survivors(s: seq<Letter>): seq<nat> {
    if s == [] then []
    else Survivors(s[..|s| - 1]) + if Leaves(Move(s[|s| - 1])) then [] else [|s| - 1]
  }

  /** An update keeps exactly the letters that stay on the screen, in order, each moved once. */
  lemma {:induction false} AdvanceMovesSurvivors(s: seq<Letter>)
    ensures |Advance(s)| == |Survivors(s)|
    ensures forall j | 0 <= j < |Survivors(s)| :: Survivors(s)[j] < |s| && Advance(s)[j] == Move(s[Survivors(s)[j]])
    ensures forall i, j | 0 <= i < j < |Survivors(s)| :: Survivors(s)[i] < Survivors(s)[j]
    ensures forall i: nat :: i in Survivors(s) <==> i < |s| && !Leaves(Move(s[i]))
  {
    hide Leaves, Move;
    if s != [] {
      AdvanceMovesSurvivors(s[..|s| - 1]);
    }
  }

  /** The letters that a sum of position and speed sends off the top, and those that one sends off the bottom. */
  function OffTop(s: seq<Letter>): set<int> {
    set i | 0 <= i < |s| && s[i].x + s[i].v < 0
  }

  function OffBottom(s: seq<Letter>): set<int> {
    set i | 0 <= i < |s| && s[i].x + s[i].v > LOWEST
  }

  lemma EmptySides()
    ensures OffTop([]) == {} && OffBottom([]) == {}
  {
  }

  lemma OffSides(s: seq<Letter>)
    requires s != []
    ensures var n := |s| - 1;
            && OffTop(s) == OffTop(s[..n]) + (if s[n].x + s[n].v < 0 then {n} else {})
            && OffBottom(s) == OffBottom(s[..n]) + (if s[n].x + s[n].v > LOWEST then {n} else {})
            && n !in OffTop(s[..n]) && n !in OffBottom(s[..n])
  {
  }

  /** The others are counted on the side where they leave. */
  lemma {:induction false} CountsInNumbers(s: seq<Letter>)
    requires AllInPlay(s)
    ensures Hits(s) == |OffTop(s)| && Misses(s) == |OffBottom(s)|
  {
    hide InPlay, Leaves, FlewOut, Move, OffTop, OffBottom;
    EmptySides();
    if s != [] {
      var n := |s| - 1;
      CountsInNumbers(s[..n]);
      MovedInNumbers(s[n]);
      OffSides(s);
    }
  }

  /** An update in plain numbers: the letters kept are those whose position and speed sum to 0..12589466, they have that
      sum as their position and nothing else changed, and the others are counted on the side where they leave. */
  lemma UpdateInNumbers(s: seq<Letter>)
    requires AllInPlay(s)
    ensures forall i: nat :: i in Survivors(s) <==> i < |s| && 0 <= s[i].x + s[i].v <= 12589466
    ensures |Advance(s)| == |Survivors(s)|
    ensures forall j | 0 <= j < |Survivors(s)| ::
              && Survivors(s)[j] < |s|
              && var l := s[Survivors(s)[j]];
                 Advance(s)[j] == Letter(l.x + l.v, l.y, l.text, l.v)
    ensures Hits(s) == |OffTop(s)| && Misses(s) == |OffBottom(s)|
  {
    hide Leaves, FlewOut, Move, Advance, Survivors, Hits, Misses;
    AdvanceMovesSurvivors(s);
    CountsInNumbers(s);
    forall i: nat | i < |s|
      ensures Move(s[i]) == Letter(s[i].x + s[i].v, s[i].y, s[i].text, s[i].v)
      ensures !Leaves(Move(s[i])) <==> 0 <= s[i].x + s[i].v <= 12589466
    {
      MovedInNumbers(s[i]);
    }
  }

  lemma MovedInNumbers(l: Letter)
    requires InPlay(l)
    ensures Move(l) == Letter(l.x + l.v, l.y, l.text, l.v)
    ensures FlewOut(Move(l)) <==> l.x + l.v < 0
    ensures !Leaves(Move(l)) <==> 0 <= l.x + l.v <= 12589466
  {
  }

  // ----- How long a letter can stay

  /** A bound on the updates a letter still sees, whether or not it is struck on the way. */
  function Remaining(l: Letter): int {
    if l.v < 0 then l.x / 196608 + 1 else (LOWEST - l.x) / 32768 + 65
  }

  function StrikeLetter(l: Letter): Letter {
    l.(v := STRUCK_SPEED)
  }

  lemma StrikeNeverProlongs(l: Letter)
    requires InPlay(l) && l.v > 0
    ensures InPlay(StrikeLetter(l)) && Remaining(StrikeLetter(l)) <= Remaining(l)
    ensures StrikeLetter(l) == Letter(l.x, l.y, l.text, 0 - 3 * ONE)
  {
  }

  datatype Fate = Update | Strike

  /** One letter's life: an update moves it or removes it, a strike turns it round if it is still falling. */
  function Outlive(l: Option<Letter>, fates: seq<Fate>): Option<Letter>
    decreases |fates|
  {
    if fates == [] || l.None? then l
    else
      var moved := Move(l.value);
      if fates[0].Strike? then Outlive(if l.value.v > 0 then Some(StrikeLetter(l.value)) else l, fates[1..])
      else Outlive(if Leaves(moved) then None else Some(moved), fates[1..])
  }

  function Updates(fates: seq<Fate>): nat {
    if fates == [] then 0 else Updates(fates[1..]) + if fates[0].Update? then 1 else 0
  }

  lemma {:induction false} GoneAfterRemaining(l: Letter, fates: seq<Fate>)
    requires InPlay(l) && Updates(fates) >= Remaining(l)
    ensures Outlive(Some(l), fates).None?
    decreases |fates|
  {
    MovedLetter(l);
    assert fates != [];
    if fates[0].Strike? {
      GoneAfterRemaining(if l.v > 0 then StrikeLetter(l) else l, fates[1..]);
    } else {
      var moved := Move(l);
      if !Leaves(moved) {
        GoneAfterRemaining(moved, fates[1..]);
      } else {
        assert Outlive(Some(l), fates) == Outlive(None, fates[1..]) == None;
      }
    }
  }

  /** Struck at any time or never, a letter is gone within 449 updates. */
  lemma EveryLetterLeaves(ry: nat, rv: nat, rt: nat, fates: seq<Fate>)
    requires Updates(fates) >= 449
    ensures InPlay(NewLetter(ry, rv, rt)) && Outlive(Some(NewLetter(ry, rv, rt)), fates).None?
  {
    NewLetterInPlay(ry, rv, rt);
    GoneAfterRemaining(NewLetter(ry, rv, rt), fates);
  }
}
