/** The typing game's main loop as a state machine that timer and keyboard interrupts may enter whenever the
    interrupt flag is on. */
module Game {
  import opened MachineInt
  import opened Letters
  import opened Keyboard
  import opened Strikes
  import opened Spacing

  const FPS := 30
  const POOL_SIZE := 1000

  /** What the tick handlers of the main loop work on. */
  datatype Field = Field(letters: seq<Letter>, keys: Keys, hit: nat, miss: nat, redraw: bool, numDraw: nat,
                         realFps: nat)

  // ----- One tick of game logic

  function CreateAt(hz: int, now: int, f: Field, ry: nat, rv: nat, rt: nat): Field
    requires hz >= 100
  {
    if now % CreatePeriod(hz) == 0 then
      f.(letters := [NewLetter(ry, rv, rt)] + f.letters, keys := f.keys[rt % NR_KEYS := false])
    else f
  }

  function UpdateAt(hz: int, now: int, f: Field): Field
    requires hz >= 100
  {
    if now % UpdatePeriod(hz) == 0 then
      f.(letters := Advance(f.letters), hit := f.hit + Hits(f.letters), miss := f.miss + Misses(f.letters))
    else f
  }

  function CountAt(hz: int, now: int, f: Field): Field
    requires hz >= 100
  {
    var g := if now % (hz / FPS) == 0 then f.(redraw := true) else f;
    if now % (hz / 2) == 0 then
      var fps := g.numDraw * 2 + 1;
      g.(realFps := if fps > FPS then FPS else fps, numDraw := 0)
    else g
  }

  // ----- The state machine

  datatype Pc = AtHlt | Halted | AtCli | AtCompare | AtAssert | AtSti | AtDrain | AtLoop | AtCreate | AtUpdate | AtCount
              | AtRedraw | Panicked

  datatype Event = Created(tick: nat) | Updated(tick: nat)

  /** ticks, created, struck, log, born and draws record what has happened; the program has no such variables. born
      holds for each live letter the place of its creation in the log, and draws for each redraw the number of ticks
      processed before it. tick is the int that the timer interrupt increments. */
  datatype World = World(pc: Pc, interruptsOn: bool, tick: Int32, now: nat, target: nat, keyCode: int, f: Field,
                         ticks: nat, created: nat, struck: nat, log: seq<Event>, born: seq<nat>,
                         draws: seq<nat>)

  datatype Input = Timer | Key(scanCode: int) | Cpu(ry: nat, rv: nat, rt: nat)

  function Initial(): World {
    World(AtHlt, true, 0, 0, 0, 0, Field([], NoKeys(), 0, 0, false, 0, 0), 0, 0, 0, [], [], [])
  }

  /** An interrupt returns to where it came, except that it ends the halt. One that comes just before hlt does not. */
  function Resume(w: World): World {
    if w.pc == Halted then w.(pc := AtCli) else w
  }

  /** The program's next statement; hlt with interrupts off would sleep for ever, which counts as a panic. What shares
      no state with the interrupts is one step. */
  function CpuStep(hz: int, w: World, ry: nat, rv: nat, rt: nat): World
    requires hz >= 100
  {
    match w.pc
    case AtHlt => w.(pc := if w.interruptsOn then Halted else Panicked)
    case Halted => w
    case AtCli => w.(interruptsOn := false, pc := AtCompare)
    case AtCompare => if w.now == w.tick then w.(interruptsOn := true, pc := AtHlt) else w.(pc := AtAssert)
    case AtAssert => if w.now < w.tick then w.(target := w.tick, pc := AtSti) else w.(pc := Panicked)
    case AtSti => w.(interruptsOn := true, f := w.f.(redraw := false), pc := AtDrain)
    case AtDrain =>
      var t := Target(w.f.letters, w.f.keys);
      if !(forall i | 0 <= i < |w.f.letters| :: 0 <= w.f.letters[i].text < NR_KEYS) then w.(pc := Panicked)
      else if t == -1 then w.(interruptsOn := true, pc := AtLoop)
      else
        var f := w.f.(letters := StrikeAt(w.f.letters, t), keys := w.f.keys[w.f.letters[t].text := false]);
        w.(interruptsOn := false, f := f, struck := w.struck + 1)
    case AtLoop => w.(pc := if w.now < w.target then AtCreate else AtRedraw)
    case AtCreate =>
      var due := w.now % CreatePeriod(hz) == 0;
      if due && |w.f.letters| >= POOL_SIZE then w.(pc := Panicked)
      else w.(f := CreateAt(hz, w.now, w.f, ry, rv, rt), pc := AtUpdate,
              created := w.created + (if due then 1 else 0), log := w.log + CreateEvent(hz, w.now),
              born := if due then [|w.log|] + w.born else w.born)
    case AtUpdate =>
      w.(f := UpdateAt(hz, w.now, w.f), pc := AtCount, log := w.log + UpdateEvent(hz, w.now),
         born := if w.now % UpdatePeriod(hz) == 0 then KeptBirths(w.f.letters, w.born) else w.born)
    case AtCount => w.(f := CountAt(hz, w.now, w.f), now := w.now + 1, pc := AtLoop)
    case AtRedraw =>
      w.(f := if w.f.redraw then w.f.(numDraw := w.f.numDraw + 1) else w.f, pc := AtHlt,
         draws := if w.f.redraw then w.draws + [w.now] else w.draws)
    case Panicked => w
  }

  /** An interrupt that comes while the flag is off waits: the machine does not move. */
  function Step(hz: int, w: World, input: Input): World
    requires hz >= 100
  {
    match input
    case Timer =>
      if w.interruptsOn && w.pc != Panicked then Resume(w.(tick := Wrap32(w.tick + 1), ticks := w.ticks + 1)) else w
    case Key(code) =>
      if w.interruptsOn && w.pc != Panicked then
        Resume(w.(keyCode := code, f := w.f.(keys := Pressed(w.f.keys, code))))
      else w
    case Cpu(ry, rv, rt) => CpuStep(hz, w, ry, rv, rt)
  }

  function Run(hz: int, inputs: seq<Input>): World
    requires hz >= 100
  {
    if inputs == [] then Initial() else Step(hz, Run(hz, inputs[..|inputs| - 1]), inputs[|inputs| - 1])
  }

  /** The births of the letters that an update keeps. */
  function KeptBirths(s: seq<Letter>, born: seq<nat>): seq<nat>
    decreases |s|
  {
    if s == [] || |born| != |s| then []
    else
      var n := |s| - 1;
      KeptBirths(s[..n], born[..n]) + if Leaves(Move(s[n])) then [] else [born[n]]
  }

  // ----- The events a number of ticks calls for

  function CreateEvent(hz: int, k: nat): seq<Event>
    requires hz >= 100
  {
    if k % CreatePeriod(hz) == 0 then [Created(k)] else []
  }

  function UpdateEvent(hz: int, k: nat): seq<Event>
    requires hz >= 100
  {
    if k % UpdatePeriod(hz) == 0 then [Updated(k)] else []
  }

  /** Each tick below n exactly once, in order. */
  function Schedule(hz: int, n: nat): seq<Event>
    requires hz >= 100
  {
    if n == 0 then [] else Schedule(hz, n - 1) + CreateEvent(hz, n - 1) + UpdateEvent(hz, n - 1)
  }

  /** Where an event stands in the schedule: a tick creates before it updates. */
  function Order(e: Event): int {
    2 * e.tick + if e.Updated? then 1 else 0
  }

  lemma {:induction false} ScheduledTicks(hz: int, n: nat)
    requires hz >= 100
    ensures forall k: nat :: Created(k) in Schedule(hz, n) <==> k < n && k % CreatePeriod(hz) == 0
    ensures forall k: nat :: Updated(k) in Schedule(hz, n) <==> k < n && k % UpdatePeriod(hz) == 0
  {
    hide CreatePeriod, UpdatePeriod;
    if n != 0 {
      ScheduledTicks(hz, n - 1);
    }
  }

  /** Every tick below n that is due for an event has it, and no other. */
  lemma ScheduleIsExact(hz: int, n: nat)
    requires hz >= 100
    ensures forall k: nat :: Created(k) in Schedule(hz, n) <==> k < n && k % (hz / 3) == 0
    ensures forall k: nat :: Updated(k) in Schedule(hz, n) <==> k < n && k % (hz / 100) == 0
  {
    hide Schedule;
    ScheduledTicks(hz, n);
  }

  /** The events are in the order of their ticks, so each comes exactly once. */
  lemma {:induction false} ScheduleIsOrdered(hz: int, n: nat)
    requires hz >= 100
    ensures forall i, j | 0 <= i < j < |Schedule(hz, n)| :: Order(Schedule(hz, n)[i]) < Order(Schedule(hz, n)[j])
    ensures forall i | 0 <= i < |Schedule(hz, n)| :: Order(Schedule(hz, n)[i]) < 2 * n
  {
    hide CreatePeriod, UpdatePeriod;
    if n != 0 {
      ScheduleIsOrdered(hz, n - 1);
    }
  }

  // ----- The invariant

  /** Updates done since the newest letter was created. */
  function UpdatesSinceCreation(hz: int, pc: Pc, now: int): int
    requires hz >= 100
  {
    var done := UpdatesBefore(hz, if pc == AtCount then now + 1 else now);
    if pc == AtUpdate || pc == AtCount then done - UpdatesBefore(hz, LastCreation(hz, now))
    else if now == 0 then 0
    else done - UpdatesBefore(hz, LastCreation(hz, now - 1))
  }

  ghost predicate ControlInv(w: World) {
    && w.pc != Panicked
    && w.tick == w.ticks
    && w.now <= w.tick
    && (w.pc in {AtCompare, AtAssert, AtSti} ==> !w.interruptsOn)
    && (w.pc !in {AtCompare, AtAssert, AtSti, AtDrain} ==> w.interruptsOn)
    && (w.pc == AtAssert ==> w.now < w.tick)
    && (w.pc in {AtSti, AtDrain, AtCreate, AtUpdate, AtCount} ==> w.now < w.target <= w.tick)
    && (w.pc == AtLoop ==> w.now <= w.target <= w.tick)
    && (w.pc == AtRedraw ==> w.now == w.target)
    && (w.pc in {AtLoop, AtRedraw} ==> w.target > 0)
  }

  ghost predicate LetterInv(hz: int, w: World)
    requires hz >= 100
  {
    && AllInPlay(w.f.letters)
    && UpdatesSinceCreation(hz, w.pc, w.now) >= 0
    && Spaced(w.f.letters, UpdatesSinceCreation(hz, w.pc, w.now))
    && (w.now == 0 && w.pc != AtUpdate && w.pc != AtCount ==> w.f.letters == [])
  }

  ghost predicate CountInv(w: World) {
    && w.created == w.f.hit + w.f.miss + |w.f.letters|
    && w.struck == w.f.hit + Struck(w.f.letters)
    && w.created <= w.now + (if w.pc == AtUpdate || w.pc == AtCount then 1 else 0)
    && w.f.realFps <= FPS
  }

  /** Ticks processed since num_draw was last reset, not counting the tick that reset it. */
  function SinceReset(hz: int, now: int): int
    requires hz >= 100
  {
    (now - 1) % (hz / 2)
  }

  /** Since then there was at most one redraw per tick, and the batch that is just over has not redrawn yet. */
  ghost predicate DrawInv(hz: int, w: World)
    requires hz >= 100
  {
    var pending := w.pc == AtRedraw || (w.pc == AtLoop && w.now == w.target);
    w.f.numDraw <= SinceReset(hz, w.now) + if pending then 0 else 1
  }

  ghost predicate LogInv(hz: int, w: World)
    requires hz >= 100
  {
    w.log == Schedule(hz, w.now)
             + (if w.pc == AtUpdate || w.pc == AtCount then CreateEvent(hz, w.now) else [])
             + (if w.pc == AtCount then UpdateEvent(hz, w.now) else [])
  }

  /** How many redraws came after more than low and at most high ticks. */
  function DrawsIn(draws: seq<nat>, low: int, high: int): nat {
    if draws == [] then 0
    else
      var last := draws[|draws| - 1];
      DrawsIn(draws[..|draws| - 1], low, high) + if low < last <= high then 1 else 0
  }

  /** The tick at which num_draw was last reset, for now > 0. */
  function LastReset(hz: int, now: nat): int
    requires hz >= 100
  {
    LastMultiple(hz / 2, now - 1)
  }

  /** num_draw counts the redraws since the last reset, and the frame rate is the lesser of 30 and twice the redraws in
      the half second before it plus 1. */
  ghost predicate FramesInv(hz: int, now: nat, numDraw: nat, realFps: nat, draws: seq<nat>)
    requires hz >= 100
  {
    && (forall i | 0 <= i < |draws| :: draws[i] <= now)
    && if now == 0 then draws == [] && numDraw == 0 && realFps == 0
       else
         var reset := LastReset(hz, now);
         var twice := 2 * DrawsIn(draws, reset - hz / 2, reset) + 1;
         numDraw == DrawsIn(draws, reset, now) && realFps == if twice > 30 then 30 else twice
  }

  /** The updates in the log after its b-th event. */
  function UpdatesAfter(log: seq<Event>, b: nat): nat {
    if |log| <= b + 1 then 0 else UpdatesAfter(log[..|log| - 1], b) + if log[|log| - 1].Updated? then 1 else 0
  }

  /** l was created by the b-th event of the log, and has seen all updates since. */
  predicate BornAt(l: Letter, b: nat, log: seq<Event>) {
    b < |log| && log[b].Created? && Remaining(l) + UpdatesAfter(log, b) <= 449
  }

  /** Each letter has a creation of its own, the newer letters the later ones. */
  ghost predicate LifeInv(s: seq<Letter>, born: seq<nat>, log: seq<Event>) {
    && |s| == |born|
    && (forall i | 0 <= i < |s| :: BornAt(s[i], born[i], log))
    && (forall i, j | 0 <= i < j < |born| :: born[i] > born[j])
  }

  ghost predicate TickInv(hz: int, w: World)
    requires hz >= 100
  {
    ControlInv(w) && LetterInv(hz, w) && CountInv(w) && LogInv(hz, w)
  }

  ghost predicate Inv(hz: int, w: World)
    requires hz >= 100
  {
    && TickInv(hz, w) && DrawInv(hz, w) && LifeInv(w.f.letters, w.born, w.log)
    && FramesInv(hz, w.now, w.f.numDraw, w.f.realFps, w.draws)
  }

  // ----- Its preservation

  lemma CreationFacts(hz: int, now: int)
    requires hz >= 100 && now >= 0
    ensures var before, after := UpdatesSinceCreation(hz, AtCreate, now), UpdatesSinceCreation(hz, AtUpdate, now);
            if now % CreatePeriod(hz) == 0 then after == 0 && (now > 0 ==> before >= 33) else after == before
  {
    CreatePeriodAtLeast33Updates(hz);
    if now > 0 {
      CreationTick(hz, now);
      if now % CreatePeriod(hz) == 0 {
        UpdatesInCreatePeriod(hz, now - CreatePeriod(hz));
      }
    }
  }

  /** The key that is released is the new letter's own. */
  lemma CreationReleasesItsKey(hz: int, now: int, f: Field, ry: nat, rv: nat, rt: nat)
    requires hz >= 100 && now % (hz / 3) == 0
    ensures var g := CreateAt(hz, now, f, ry, rv, rt);
            && |g.letters| == |f.letters| + 1 && g.letters[1..] == f.letters
            && 0 <= g.letters[0].text < 26 && g.keys == f.keys[g.letters[0].text := false]
  {
    hide NewSpeed;
  }

  /** Creation keeps the letters spaced, so the pool of 1000 never runs out. */
  lemma CreateAtKeepsSpacing(hz: int, now: int, f: Field, ry: nat, rv: nat, rt: nat)
    requires hz >= 100 && now >= 0 && AllInPlay(f.letters)
    requires Spaced(f.letters, UpdatesSinceCreation(hz, AtCreate, now)) && (now == 0 ==> f.letters == [])
    ensures AllInPlay(CreateAt(hz, now, f, ry, rv, rt).letters)
    ensures Spaced(CreateAt(hz, now, f, ry, rv, rt).letters, UpdatesSinceCreation(hz, AtUpdate, now))
  {
    CreationFacts(hz, now);
    NewLetterInPlay(ry, rv, rt);
    if now % CreatePeriod(hz) == 0 {
      if now > 0 {
        CreationSpaced(f.letters, UpdatesSinceCreation(hz, AtCreate, now), NewLetter(ry, rv, rt));
      } else {
        CreationSpaced(f.letters, 33, NewLetter(ry, rv, rt));
      }
    }
  }

  lemma UpdateAtKeepsSpacing(hz: int, now: int, f: Field)
    requires hz >= 100 && now >= 0 && AllInPlay(f.letters)
    requires Spaced(f.letters, UpdatesSinceCreation(hz, AtUpdate, now))
    ensures AllInPlay(UpdateAt(hz, now, f).letters)
    ensures Spaced(UpdateAt(hz, now, f).letters, UpdatesSinceCreation(hz, AtCount, now))
    ensures UpdatesSinceCreation(hz, AtCount, now) == UpdatesSinceCreation(hz, AtCreate, now + 1)
    ensures UpdatesSinceCreation(hz, AtCount, now) >= UpdatesSinceCreation(hz, AtUpdate, now)
  {
    hide UpdatesBefore, LastCreation, Spaced, AllInPlay, Advance;
    UpdateTick(hz, now);
    UpdateSpaced(f.letters, UpdatesSinceCreation(hz, AtUpdate, now));
    AdvanceConserves(f.letters);
  }

  /** What the catch-up loop needs of the letters before tick now. */
  ghost predicate FieldReady(hz: int, now: nat, f: Field)
    requires hz >= 100
  {
    && AllInPlay(f.letters)
    && UpdatesSinceCreation(hz, AtLoop, now) >= 0
    && Spaced(f.letters, UpdatesSinceCreation(hz, AtLoop, now))
    && (now == 0 ==> f.letters == [])
  }

  function TickAt(hz: int, now: nat, f: Field, ry: nat, rv: nat, rt: nat): Field
    requires hz >= 100
  {
    CountAt(hz, now, UpdateAt(hz, now, CreateAt(hz, now, f, ry, rv, rt)))
  }

  lemma TickKeepsFieldReady(hz: int, now: nat, f: Field, ry: nat, rv: nat, rt: nat)
    requires hz >= 100 && FieldReady(hz, now, f)
    ensures |f.letters| <= 14
    ensures FieldReady(hz, now + 1, TickAt(hz, now, f, ry, rv, rt))
  {
    hide UpdatesBefore, LastCreation, Spaced, AllInPlay, Advance, NewLetter;
    AtMostFourteen(f.letters, UpdatesSinceCreation(hz, AtLoop, now));
    CreationFacts(hz, now);
    CreateAtKeepsSpacing(hz, now, f, ry, rv, rt);
    UpdateAtKeepsSpacing(hz, now, CreateAt(hz, now, f, ry, rv, rt));
  }

  lemma StruckOfCreation(s: seq<Letter>, l: Letter)
    requires l.v >= 0
    ensures Struck([l] + s) == Struck(s)
  {
    if s == [] {
      assert [l] + s == [l];
      assert [l][..0] == [];
    } else {
      StruckOfCreation(s[..|s| - 1], l);
      assert ([l] + s)[..|s|] == [l] + s[..|s| - 1];
    }
  }

  lemma CreateStepKeepsTickInv(hz: int, w: World, ry: nat, rv: nat, rt: nat)
    requires hz >= 100 && TickInv(hz, w) && w.pc == AtCreate
    ensures TickInv(hz, CpuStep(hz, w, ry, rv, rt))
  {
    hide UpdatesBefore, LastCreation, Spaced, AllInPlay, Schedule, CreateEvent, UpdateEvent, NewLetter, UpdateAt,
         CountAt, Target, StrikeAt;
    AtMostFourteen(w.f.letters, UpdatesSinceCreation(hz, w.pc, w.now));
    var w' := CpuStep(hz, w, ry, rv, rt);
    assert LetterInv(hz, w') by {
      CreationFacts(hz, w.now);
      CreateAtKeepsSpacing(hz, w.now, w.f, ry, rv, rt);
    }
    assert CountInv(w') by {
      NewLetterInPlay(ry, rv, rt);
      StruckOfCreation(w.f.letters, NewLetter(ry, rv, rt));
    }
  }

  lemma UpdateStepKeepsTickInv(hz: int, w: World, ry: nat, rv: nat, rt: nat)
    requires hz >= 100 && TickInv(hz, w) && w.pc == AtUpdate
    ensures TickInv(hz, CpuStep(hz, w, ry, rv, rt))
  {
    hide UpdatesBefore, LastCreation, Spaced, AllInPlay, Schedule, CreateEvent, UpdateEvent;
    var w' := CpuStep(hz, w, ry, rv, rt);
    assert LetterInv(hz, w') by {
      UpdateAtKeepsSpacing(hz, w.now, w.f);
    }
    assert CountInv(w') by {
      AdvanceConserves(w.f.letters);
    }
  }

  lemma CountStepKeepsTickInv(hz: int, w: World, ry: nat, rv: nat, rt: nat)
    requires hz >= 100 && TickInv(hz, w) && w.pc == AtCount
    ensures TickInv(hz, CpuStep(hz, w, ry, rv, rt))
  {
    hide UpdatesBefore, LastCreation, Spaced, AllInPlay, Struck, CreateEvent, UpdateEvent;
    UpdateTick(hz, w.now);
  }

  lemma DrainStepKeepsTickInv(hz: int, w: World, ry: nat, rv: nat, rt: nat)
    requires hz >= 100 && TickInv(hz, w) && w.pc == AtDrain
    ensures TickInv(hz, CpuStep(hz, w, ry, rv, rt))
  {
    hide Spaced, UpdatesBefore, LastCreation, Falling, Struck, Target, Schedule, CreateEvent, UpdateEvent, CreateAt,
         UpdateAt, CountAt;
    var t := Target(w.f.letters, w.f.keys);
    TargetIsLowest(w.f.letters, w.f.keys);
    if t != -1 {
      StrikeSpaced(w.f.letters, UpdatesSinceCreation(hz, w.pc, w.now), t);
      StrikeCounts(w.f.letters, t);
    }
  }

  lemma InterruptKeepsTickInv(hz: int, w: World, input: Input)
    requires hz >= 100 && TickInv(hz, w) && !input.Cpu? && Step(hz, w, input).ticks < TWO_31
    ensures TickInv(hz, Step(hz, w, input))
  {
    hide UpdatesBefore, LastCreation, Spaced, AllInPlay, Struck, Schedule, CreateEvent, UpdateEvent, Pressed;
  }

  lemma ControlStepKeepsTickInv(hz: int, w: World, ry: nat, rv: nat, rt: nat)
    requires hz >= 100 && TickInv(hz, w) && w.pc !in {AtCreate, AtUpdate, AtCount, AtDrain}
    ensures TickInv(hz, CpuStep(hz, w, ry, rv, rt))
  {
    hide UpdatesBefore, LastCreation, Spaced, AllInPlay, Struck, Schedule, CreateEvent, UpdateEvent;
  }

  lemma NextRemainder(n: int, d: int)
    requires d >= 1
    ensures n % d == if (n - 1) % d + 1 == d then 0 else (n - 1) % d + 1
  {
    var q := (n - 1) / d;
    EuclideanRest(n - 1, d);
    Distribute(q, -1, d);
    var r := n - 1 - q * d;
    RemainderIs(n - 1, q, d);
    if r + 1 == d {
      RemainderIs(n, q + 1, d);
    } else {
      RemainderIs(n, q, d);
    }
  }

  lemma SinceResetStep(hz: int, now: int)
    requires hz >= 100
    ensures 0 <= SinceReset(hz, now) < hz / 2
    ensures SinceReset(hz, now + 1) == now % (hz / 2)
    ensures now % (hz / 2) != 0 ==> SinceReset(hz, now + 1) == SinceReset(hz, now) + 1
  {
    NextRemainder(now, hz / 2);
  }

  lemma StepKeepsDrawInv(hz: int, w: World, input: Input)
    requires hz >= 100 && ControlInv(w) && DrawInv(hz, w)
    ensures DrawInv(hz, Step(hz, w, input))
  {
    hide Target, Pressed, Advance, Hits, Misses, NewLetter, StrikeAt, AllInPlay, SinceReset, CreateEvent,
         UpdateEvent, CountAt;
    SinceResetStep(hz, w.now);
    CountedDraws(hz, w.now, w.f);
  }

  lemma CountedDraws(hz: int, now: int, f: Field)
    requires hz >= 100
    ensures CountAt(hz, now, f).numDraw == if now % (hz / 2) == 0 then 0 else f.numDraw
  {
  }

  /** Only the part of the range up to now matters. */
  lemma {:induction false} DrawsSoFar(draws: seq<nat>, now: nat, low: int, high: int)
    requires forall i | 0 <= i < |draws| :: draws[i] <= now
    ensures now <= high ==> DrawsIn(draws, low, high) == DrawsIn(draws, low, now)
    ensures now <= low ==> DrawsIn(draws, low, high) == 0
  {
    if draws != [] {
      DrawsSoFar(draws[..|draws| - 1], now, low, high);
    }
  }

  lemma NoDraws(low: int, high: int)
    ensures DrawsIn([], low, high) == 0
  {
  }

  lemma FrameTick(hz: int, now: nat, f: Field, draws: seq<nat>)
    requires hz >= 100 && FramesInv(hz, now, f.numDraw, f.realFps, draws)
    ensures var g := CountAt(hz, now, f);
            FramesInv(hz, now + 1, g.numDraw, g.realFps, draws)
  {
    hide LastMultiple, DrawsIn;
    var h := hz / 2;
    LastMultipleStep(h, now);
    DrawsSoFar(draws, now, now, now + 1);
    if now == 0 {
      DrawsSoFar(draws, now, 0 - h, now);
      NoDraws(0 - h, now);
    } else {
      DrawsSoFar(draws, now, LastReset(hz, now), now + 1);
    }
  }

  /** A tick of game logic keeps the invariant of the frame counters. */
  lemma TickKeepsFrames(hz: int, now: nat, f: Field, ry: nat, rv: nat, rt: nat, draws: seq<nat>)
    requires hz >= 100 && FramesInv(hz, now, f.numDraw, f.realFps, draws)
    ensures var g := TickAt(hz, now, f, ry, rv, rt);
            FramesInv(hz, now + 1, g.numDraw, g.realFps, draws)
  {
    hide FramesInv, CountAt, NewLetter, Advance, Hits, Misses;
    FrameTick(hz, now, UpdateAt(hz, now, CreateAt(hz, now, f, ry, rv, rt)), draws);
  }

  lemma RedrawKeepsFrames(hz: int, now: nat, numDraw: nat, realFps: nat, draws: seq<nat>)
    requires hz >= 100 && now > 0 && FramesInv(hz, now, numDraw, realFps, draws)
    ensures FramesInv(hz, now, numDraw + 1, realFps, draws + [now])
  {
    var draws' := draws + [now];
    assert draws'[..|draws|] == draws;
    EuclideanRest(now - 1, hz / 2);
  }

  lemma StepKeepsFrames(hz: int, w: World, input: Input)
    requires hz >= 100 && ControlInv(w) && FramesInv(hz, w.now, w.f.numDraw, w.f.realFps, w.draws)
    ensures var w' := Step(hz, w, input);
            FramesInv(hz, w'.now, w'.f.numDraw, w'.f.realFps, w'.draws)
  {
    hide FramesInv, CountAt, NewLetter, Advance, Hits, Misses, Target, StrikeAt, Pressed, KeptBirths;
    if input.Cpu? && w.pc == AtCount {
      FrameTick(hz, w.now, w.f, w.draws);
    } else if input.Cpu? && w.pc == AtRedraw {
      RedrawKeepsFrames(hz, w.now, w.f.numDraw, w.f.realFps, w.draws);
    }
  }

  lemma LaterEvent(l: Letter, b: nat, log: seq<Event>, e: Event)
    requires BornAt(l, b, log)
    ensures b < |log + [e]| && (log + [e])[b] == log[b]
    ensures UpdatesAfter(log + [e], b) == UpdatesAfter(log, b) + if e.Updated? then 1 else 0
  {
    assert (log + [e])[..|log|] == log;
  }

  lemma CreationKeepsLife(s: seq<Letter>, born: seq<nat>, log: seq<Event>, l: Letter, k: nat)
    requires LifeInv(s, born, log) && l.x == 0 && l.v > 0
    ensures LifeInv([l] + s, [|log|] + born, log + [Created(k)])
  {
    hide Remaining, UpdatesAfter;
    var s', born', log' := [l] + s, [|log|] + born, log + [Created(k)];
    NewbornAge(l, log, k);
    forall i | 0 <= i < |s'|
      ensures BornAt(s'[i], born'[i], log')
    {
      if i > 0 {
        assert BornAt(s[i - 1], born[i - 1], log);
        LaterEvent(s[i - 1], born[i - 1], log, Created(k));
      }
    }
    forall i, j | 0 <= i < j < |born'|
      ensures born'[i] > born'[j]
    {
      assert BornAt(s[j - 1], born[j - 1], log);
    }
  }

  lemma NewbornAge(l: Letter, log: seq<Event>, k: nat)
    requires l.x == 0 && l.v > 0
    ensures BornAt(l, |log|, log + [Created(k)])
  {
  }

  ghost predicate AllAbove(born: seq<nat>, b: nat) {
    forall i | 0 <= i < |born| :: born[i] > b
  }

  lemma LifeWithout(s: seq<Letter>, born: seq<nat>, log: seq<Event>)
    requires LifeInv(s, born, log) && s != []
    ensures LifeInv(s[..|s| - 1], born[..|s| - 1], log) && BornAt(s[|s| - 1], born[|s| - 1], log)
    ensures AllAbove(born[..|s| - 1], born[|s| - 1])
  {
    hide BornAt;
  }

  lemma LifeWith(s: seq<Letter>, born: seq<nat>, log: seq<Event>, l: Letter, b: nat)
    requires LifeInv(s, born, log) && BornAt(l, b, log) && AllAbove(born, b)
    ensures LifeInv(s + [l], born + [b], log)
  {
    hide BornAt;
    forall i | 0 <= i < |s| + 1
      ensures BornAt((s + [l])[i], (born + [b])[i], log)
    {
      assert i < |s| ==> BornAt(s[i], born[i], log);
    }
  }

  /** An update adds an event to the log and uses up one of the letter's remaining updates. */
  lemma MovedLife(l: Letter, b: nat, log: seq<Event>, k: nat)
    requires InPlay(l) && BornAt(l, b, log) && !Leaves(Move(l))
    ensures BornAt(Move(l), b, log + [Updated(k)])
  {
    hide UpdatesAfter, Remaining;
    LaterEvent(l, b, log, Updated(k));
    MovedLetter(l);
  }

  lemma {:induction false} UpdateKeepsLife(s: seq<Letter>, born: seq<nat>, log: seq<Event>, k: nat)
    requires AllInPlay(s) && LifeInv(s, born, log)
    ensures LifeInv(Advance(s), KeptBirths(s, born), log + [Updated(k)])
    ensures forall b | b in KeptBirths(s, born) :: b in born
  {
    hide BornAt, Move, Leaves, InPlay;
    if s != [] {
      var n := |s| - 1;
      LifeWithout(s, born, log);
      hide LifeInv;
      var l, births := Move(s[n]), KeptBirths(s[..n], born[..n]);
      UpdateKeepsLife(s[..n], born[..n], log, k);
      if Leaves(l) {
        assert Advance(s) == Advance(s[..n]) && KeptBirths(s, born) == births;
      } else {
        MovedLife(s[n], born[n], log, k);
        assert forall i | 0 <= i < |births| :: births[i] in births;
        LifeWith(Advance(s[..n]), births, log + [Updated(k)], l, born[n]);
        assert KeptBirths(s, born) == births + [born[n]];
      }
    }
  }

  lemma StrikeKeepsLife(s: seq<Letter>, born: seq<nat>, log: seq<Event>, t: nat)
    requires LifeInv(s, born, log) && t < |s| && InPlay(s[t]) && s[t].v > 0
    ensures LifeInv(StrikeAt(s, t), born, log)
  {
    hide UpdatesAfter;
    StrikeNeverProlongs(s[t]);
    assert BornAt(s[t], born[t], log);
  }

  lemma StepKeepsLife(hz: int, w: World, input: Input)
    requires hz >= 100 && AllInPlay(w.f.letters) && LifeInv(w.f.letters, w.born, w.log)
    ensures var w' := Step(hz, w, input);
            LifeInv(w'.f.letters, w'.born, w'.log)
  {
    hide AllInPlay, LifeInv, Pressed, Target, Advance, Hits, Misses, NewLetter, KeptBirths;
    if input.Cpu? && w.pc == AtDrain {
      DrainKeepsLife(w);
    } else if input.Cpu? && w.pc == AtCreate {
      var l := NewLetter(input.ry, input.rv, input.rt);
      NewLetterInPlay(input.ry, input.rv, input.rt);
      NewLetterPlace(input.ry, input.rv, input.rt);
      CreationKeepsLife(w.f.letters, w.born, w.log, l, w.now);
      assert w.log + [] == w.log;
    } else if input.Cpu? && w.pc == AtUpdate {
      UpdateKeepsLife(w.f.letters, w.born, w.log, w.now);
      assert w.log + [] == w.log;
    }
  }

  lemma DrainKeepsLife(w: World)
    requires AllInPlay(w.f.letters) && LifeInv(w.f.letters, w.born, w.log)
    ensures var t := Target(w.f.letters, w.f.keys);
            t != -1 ==> LifeInv(StrikeAt(w.f.letters, t), w.born, w.log)
  {
    hide LifeInv;
    TargetIsLowest(w.f.letters, w.f.keys);
    if Target(w.f.letters, w.f.keys) != -1 {
      StrikeKeepsLife(w.f.letters, w.born, w.log, Target(w.f.letters, w.f.keys));
    }
  }

  /** As long as the number of timer interrupts is an int. */
  lemma StepKeepsInv(hz: int, w: World, input: Input)
    requires hz >= 100 && Inv(hz, w) && Step(hz, w, input).ticks < TWO_31
    ensures Inv(hz, Step(hz, w, input))
  {
    hide ControlInv, LetterInv, CountInv, DrawInv, LogInv, LifeInv, FramesInv, CpuStep;
    StepKeepsDrawInv(hz, w, input);
    LettersInPlay(hz, w);
    StepKeepsLife(hz, w, input);
    StepKeepsFrames(hz, w, input);
    if input.Cpu? {
      var Cpu(ry, rv, rt) := input;
      match w.pc
      case AtCreate => CreateStepKeepsTickInv(hz, w, ry, rv, rt);
      case AtUpdate => UpdateStepKeepsTickInv(hz, w, ry, rv, rt);
      case AtCount => CountStepKeepsTickInv(hz, w, ry, rv, rt);
      case AtDrain => DrainStepKeepsTickInv(hz, w, ry, rv, rt);
      case _ => ControlStepKeepsTickInv(hz, w, ry, rv, rt);
    } else {
      InterruptKeepsTickInv(hz, w, input);
    }
  }

  lemma TicksGrow(hz: int, w: World, input: Input)
    requires hz >= 100
    ensures w.ticks <= Step(hz, w, input).ticks
  {
  }

  // ----- Every run

  lemma {:induction false} EveryRunKeepsInv(hz: int, inputs: seq<Input>)
    requires hz >= 100 && Run(hz, inputs).ticks < TWO_31
    ensures Inv(hz, Run(hz, inputs))
  {
    if inputs != [] {
      var before := Run(hz, inputs[..|inputs| - 1]);
      TicksGrow(hz, before, inputs[|inputs| - 1]);
      EveryRunKeepsInv(hz, inputs[..|inputs| - 1]);
      StepKeepsInv(hz, before, inputs[|inputs| - 1]);
    }
  }

  /** However interrupts fall, until tick overflows no assertion fails, hlt is never reached with interrupts off, the
      loop never runs ahead of the clock, at most 14 letters are live, and the other counters stay ints as well. */
  lemma EveryRunIsSafe(hz: int, inputs: seq<Input>)
    requires hz >= 100 && Run(hz, inputs).ticks < TWO_31
    ensures var w := Run(hz, inputs);
            && w.pc != Panicked
            && w.now <= w.tick == w.ticks
            && (w.pc == AtHlt || w.pc == Halted ==> w.interruptsOn)
            && |w.f.letters| <= 14
            && w.f.hit + w.f.miss <= w.created <= w.ticks
            && 2 * w.f.numDraw <= hz
  {
    EveryRunKeepsInv(hz, inputs);
    var w := Run(hz, inputs);
    AtMostFourteen(w.f.letters, UpdatesSinceCreation(hz, w.pc, w.now));
  }

  /** Every live letter has a creation of its own in the log, at most 448 updates ago; so after 449 more updates, and
      whatever else happens, a letter created is no longer live. */
  lemma EveryRunOutlivesLetters(hz: int, inputs: seq<Input>)
    requires hz >= 100 && Run(hz, inputs).ticks < TWO_31
    ensures var w := Run(hz, inputs);
            && |w.born| == |w.f.letters|
            && (forall i, j | 0 <= i < j < |w.born| :: w.born[i] > w.born[j])
            && (forall b | b in w.born :: b < |w.log| && w.log[b].Created? && UpdatesAfter(w.log, b) <= 448)
            && (forall b: nat | b < |w.log| && UpdatesAfter(w.log, b) >= 449 :: b !in w.born)
  {
    hide UpdatesAfter;
    EveryRunKeepsInv(hz, inputs);
    var w := Run(hz, inputs);
    forall b | b in w.born
      ensures b < |w.log| && w.log[b].Created? && UpdatesAfter(w.log, b) <= 448
    {
      var i :| 0 <= i < |w.born| && w.born[i] == b;
      assert BornAt(w.f.letters[i], w.born[i], w.log);
      LettersInPlay(hz, w);
      MovedLetter(w.f.letters[i]);
    }
  }

  /** In every run num_draw is the number of redraws since the last tick that a half second divides, and the frame rate
      the lesser of 30 and twice the redraws in the half second up to it plus 1. */
  lemma EveryRunCountsFrames(hz: int, inputs: seq<Input>, reset: nat)
    requires hz >= 100 && Run(hz, inputs).ticks < TWO_31
    requires reset % (hz / 2) == 0 && reset < Run(hz, inputs).now <= reset + hz / 2
    ensures var w := Run(hz, inputs);
            var twice := 2 * DrawsIn(w.draws, reset - hz / 2, reset) + 1;
            && w.f.numDraw == DrawsIn(w.draws, reset, w.now)
            && w.f.realFps == if twice > 30 then 30 else twice
  {
    hide TickInv, LifeInv, DrawInv, DrawsIn, LastMultiple, Run;
    EveryRunKeepsInv(hz, inputs);
    IsLastMultiple(hz / 2, Run(hz, inputs).now - 1, reset);
  }

  /** Letters created are the hits, the misses and those still live; letters struck are the hits and the live ones on
      their way up. */
  lemma EveryRunConservesLetters(hz: int, inputs: seq<Input>)
    requires hz >= 100 && Run(hz, inputs).ticks < TWO_31
    ensures var w := Run(hz, inputs);
            && w.created == w.f.hit + w.f.miss + |w.f.letters|
            && w.struck == w.f.hit + Struck(w.f.letters)
  {
    EveryRunKeepsInv(hz, inputs);
  }

  /** Between ticks, what has been created and updated depends only on now: two runs that have processed the same
      number of ticks have done the same events in the same order, however the ticks were batched. */
  lemma BatchingIsInvisible(hz: int, inputs: seq<Input>, others: seq<Input>)
    requires hz >= 100 && Run(hz, inputs).ticks < TWO_31 && Run(hz, others).ticks < TWO_31
    requires Run(hz, inputs).now == Run(hz, others).now
    requires Run(hz, inputs).pc !in {AtUpdate, AtCount} && Run(hz, others).pc !in {AtUpdate, AtCount}
    ensures Run(hz, inputs).log == Run(hz, others).log == Schedule(hz, Run(hz, inputs).now)
  {
    EveryRunKeepsInv(hz, inputs);
    EveryRunKeepsInv(hz, others);
  }

  // ----- The run on which tick overflows

  ghost predicate Reachable(hz: int, w: World)
    requires hz >= 100
  {
    exists inputs :: Run(hz, inputs) == w
  }

  lemma ReachableStep(hz: int, w: World, input: Input)
    requires hz >= 100 && Reachable(hz, w)
    ensures Reachable(hz, Step(hz, w, input))
  {
    hide Step;
    var inputs :| Run(hz, inputs) == w;
    assert (inputs + [input])[..|inputs|] == inputs;
    assert Run(hz, inputs + [input]) == Step(hz, w, input);
  }

  lemma ReachableKeepsInv(hz: int, w: World)
    requires hz >= 100 && Reachable(hz, w) && w.ticks < TWO_31
    ensures Inv(hz, w) && |w.f.letters| <= 14
  {
    var inputs :| Run(hz, inputs) == w;
    EveryRunKeepsInv(hz, inputs);
    EveryRunIsSafe(hz, inputs);
  }

  /** Waiting for the n + 1st timer interrupt, with all earlier ones processed and no key pressed. */
  predicate IdleAt(w: World, n: nat) {
    && w.pc == Halted && w.interruptsOn && w.now == w.tick == w.ticks == n
    && forall i | 0 <= i < 26 :: !w.f.keys[i]
  }

  /** The program's next n statements, when rand() returns 0 and no interrupt comes. */
  function Ahead(hz: int, w: World, n: nat): World
    requires hz >= 100
  {
    if n == 0 then w else CpuStep(hz, Ahead(hz, w, n - 1), 0, 0, 0)
  }

  lemma AheadStep(hz: int, w: World, n: nat)
    requires hz >= 100
    ensures Ahead(hz, w, 0) == w
    ensures Ahead(hz, w, n + 1) == CpuStep(hz, Ahead(hz, w, n), 0, 0, 0)
  {
  }

  lemma {:induction false} ReachableAhead(hz: int, w: World, n: nat)
    requires hz >= 100 && Reachable(hz, w)
    ensures Reachable(hz, Ahead(hz, w, n))
  {
    hide Reachable, CpuStep;
    if n != 0 {
      ReachableAhead(hz, w, n - 1);
      ReachableStep(hz, Ahead(hz, w, n - 1), Cpu(0, 0, 0));
    }
  }

  lemma TickTaken(hz: int, w: World)
    requires hz >= 100 && w.pc == AtCli && w.now < w.tick
    ensures Ahead(hz, w, 4) == w.(pc := AtDrain, interruptsOn := true, target := w.tick, f := w.f.(redraw := false))
  {
    assert Ahead(hz, w, 1) == w.(pc := AtCompare, interruptsOn := false);
    assert Ahead(hz, w, 2) == w.(pc := AtAssert, interruptsOn := false);
    assert Ahead(hz, w, 3) == w.(pc := AtSti, interruptsOn := false, target := w.tick);
  }

  lemma NothingToDrain(hz: int, w: World)
    requires hz >= 100 && w.pc == AtDrain && w.interruptsOn && w.now < w.target
    requires AllInPlay(w.f.letters) && forall i | 0 <= i < 26 :: !w.f.keys[i]
    ensures Ahead(hz, w, 2) == w.(pc := AtCreate)
  {
    hide Target;
    TargetIsLowest(w.f.letters, w.f.keys);
    assert Ahead(hz, w, 1) == w.(pc := AtLoop);
  }

  lemma QuietTick(hz: int, now: int, f: Field, f1: Field, f2: Field)
    requires hz >= 100 && now >= 0 && f1 == CreateAt(hz, now, f, 0, 0, 0) && f2 == UpdateAt(hz, now, f1)
    requires forall i | 0 <= i < 26 :: !f.keys[i]
    ensures forall i | 0 <= i < 26 :: !CountAt(hz, now, f2).keys[i]
  {
    hide Advance, Hits, Misses, NewLetter, CreatePeriod, UpdatePeriod;
  }

  lemma TickProcessed(hz: int, w: World)
    requires hz >= 100 && w.pc == AtCreate && |w.f.letters| < POOL_SIZE
    requires forall i | 0 <= i < 26 :: !w.f.keys[i]
    ensures var w' := Ahead(hz, w, 3);
            && w' == w.(pc := AtLoop, now := w.now + 1, f := w'.f, created := w'.created, log := w'.log,
                      born := w'.born)
            && forall i | 0 <= i < 26 :: !w'.f.keys[i]
  {
    hide CreateAt, UpdateAt, CountAt, CreateEvent, UpdateEvent, CreatePeriod;
    var f1 := CreateAt(hz, w.now, w.f, 0, 0, 0);
    var f2 := UpdateAt(hz, w.now, f1);
    QuietTick(hz, w.now, w.f, f1, f2);
    AheadStep(hz, w, 0);
    AheadStep(hz, w, 1);
    AheadStep(hz, w, 2);
    var a := Ahead(hz, w, 1);
    assert a == w.(pc := AtUpdate, f := f1, created := a.created, log := a.log, born := a.born);
    var b := Ahead(hz, w, 2);
    assert b == w.(pc := AtCount, f := f2, created := b.created, log := b.log, born := b.born);
  }

  lemma BackToHalt(hz: int, w: World)
    requires hz >= 100 && w.pc == AtLoop && w.now >= w.target && w.interruptsOn
    ensures var w' := Ahead(hz, w, 3);
            w' == w.(pc := Halted, f := w'.f, draws := w'.draws) && w'.f.keys == w.f.keys
  {
    assert Ahead(hz, w, 1) == w.(pc := AtRedraw);
    assert Ahead(hz, w, 2).pc == AtHlt;
  }

  /** The interrupt, then the round of the main loop that handles it. */
  lemma IdleRound(hz: int, w: World, n: nat)
    requires hz >= 100 && Reachable(hz, w) && IdleAt(w, n) && n + 1 < TWO_31
    ensures exists w' :: Reachable(hz, w') && IdleAt(w', n + 1)
  {
    hide Reachable, Inv, Ahead;
    ReachableKeepsInv(hz, w);
    LettersInPlay(hz, w);
    var a := Step(hz, w, Timer);
    ReachableStep(hz, w, Timer);
    TickTaken(hz, a);
    ReachableAhead(hz, a, 4);
    var b := Ahead(hz, a, 4);
    NothingToDrain(hz, b);
    ReachableAhead(hz, b, 2);
    var c := Ahead(hz, b, 2);
    TickProcessed(hz, c);
    ReachableAhead(hz, c, 3);
    var d := Ahead(hz, c, 3);
    BackToHalt(hz, d);
    ReachableAhead(hz, d, 3);
    assert IdleAt(Ahead(hz, d, 3), n + 1);
  }

  lemma {:induction false} IdleReachable(hz: int, n: nat)
    requires hz >= 100 && n < TWO_31
    ensures exists w :: Reachable(hz, w) && IdleAt(w, n)
  {
    hide Reachable;
    if n == 0 {
      var w := Step(hz, Initial(), Cpu(0, 0, 0));
      assert Reachable(hz, Initial()) by {
        InitialReachable(hz);
      }
      ReachableStep(hz, Initial(), Cpu(0, 0, 0));
      assert IdleAt(w, 0);
    } else {
      IdleReachable(hz, n - 1);
      var w :| Reachable(hz, w) && IdleAt(w, n - 1);
      IdleRound(hz, w, n - 1);
    }
  }

  lemma InitialReachable(hz: int)
    requires hz >= 100
    ensures Reachable(hz, Initial())
  {
    assert Run(hz, []) == Initial();
  }

  /** The timer interrupt that makes tick negative: the assertion now < tick fails in the next round. */
  lemma OverflowPanics(hz: int, w: World)
    requires hz >= 100 && IdleAt(w, TWO_31 - 1)
    ensures var w' := Ahead(hz, Step(hz, w, Timer), 3);
            w'.pc == Panicked && w'.ticks == TWO_31
  {
    var a := Step(hz, w, Timer);
    assert a.tick == -0x8000_0000;
    assert Ahead(hz, a, 1) == a.(pc := AtCompare, interruptsOn := false);
    assert Ahead(hz, a, 2) == a.(pc := AtAssert, interruptsOn := false);
  }

  /** The game is safe for a number of timer interrupts if and only if that number is an int. */
  lemma SafeExactlyUntilOverflow(hz: int, most: nat)
    requires hz >= 100
    ensures (forall inputs | Run(hz, inputs).ticks <= most :: Run(hz, inputs).pc != Panicked) <==> most < TWO_31
  {
    if most < TWO_31 {
      forall inputs | Run(hz, inputs).ticks <= most
        ensures Run(hz, inputs).pc != Panicked
      {
        EveryRunIsSafe(hz, inputs);
      }
    } else {
      IdleReachable(hz, TWO_31 - 1);
      var w :| Reachable(hz, w) && IdleAt(w, TWO_31 - 1);
      OverflowPanics(hz, w);
      ReachableStep(hz, w, Timer);
      ReachableAhead(hz, Step(hz, w, Timer), 3);
      var inputs :| Run(hz, inputs) == Ahead(hz, Step(hz, w, Timer), 3);
      assert !(Run(hz, inputs).ticks <= most ==> Run(hz, inputs).pc != Panicked);
    }
  }

  // ----- From the key press to the strike

  /** A key pressed while letters with its text fall: draining strikes the lowest of them, and leaves the key up. */
  lemma PressStrikes(hz: int, w: World, r: nat, i: nat, k: nat)
    requires hz >= 100 && w.interruptsOn && w.pc != Panicked && AllInPlay(w.f.letters)
    requires r < |ROWS| && i < |ROWS[r].0| && LowestOfItsText(w.f.letters, k)
    requires w.f.letters[k].text == ROWS[r].0[i] as int - 'A' as int
    ensures var f := Step(hz, w, Key(ROWS[r].1 + i)).f;
            var (letters, keys) := Drained(f.letters, f.keys);
            var l := w.f.letters[k];
            && f.letters == w.f.letters
            && |letters| == |f.letters| && letters[k] == Letter(l.x, l.y, l.text, 0 - 3 * 65536)
            && 0 <= l.text < 26 && !keys[l.text]
  {
    LowestFalls(w.f.letters, k);
    hide Pressed, LETTER_CODE, ROWS, Drained, LowestOfItsText;
    var f := Step(hz, w, Key(ROWS[r].1 + i)).f;
    var l := w.f.letters[k];
    assert InPlay(l);
    CodesFollowRows(r, i);
    PressedByRow(w.f.keys, r, i, l.text);
    DrainStrikesLowestPerKey(f.letters, f.keys);
    StrikeNeverProlongs(l);
  }

  lemma LowestFalls(s: seq<Letter>, k: nat)
    requires LowestOfItsText(s, k)
    ensures s[k].v > 0 && FallingWithText(s, s[k].text)
  {
  }

  // ----- The drain loop under interrupts

  function Steps(hz: int, w: World, inputs: seq<Input>): World
    requires hz >= 100
    decreases |inputs|
  {
    if inputs == [] then w else Steps(hz, Step(hz, w, inputs[0]), inputs[1..])
  }

  function CpuSteps(inputs: seq<Input>): nat {
    if inputs == [] then 0 else (if inputs[0].Cpu? then 1 else 0) + CpuSteps(inputs[1..])
  }

  /** A round of the drain loop turns one falling letter round or ends the loop; an interrupt does neither. */
  lemma DrainRound(hz: int, w: World, input: Input)
    requires hz >= 100 && AllInPlay(w.f.letters) && w.pc == AtDrain
    ensures var w' := Step(hz, w, input);
            && AllInPlay(w'.f.letters)
            && if !input.Cpu? then w'.pc == AtDrain && Falling(w'.f.letters) == Falling(w.f.letters)
               else if Target(w.f.letters, w.f.keys) == -1 then w'.pc == AtLoop && w'.interruptsOn
               else w'.pc == AtDrain && !w'.interruptsOn && Falling(w'.f.letters) == Falling(w.f.letters) - 1
  {
    hide Falling, Pressed, LetterInv, CountInv, LogInv;
    var t := Target(w.f.letters, w.f.keys);
    TargetIsLowest(w.f.letters, w.f.keys);
    if t != -1 {
      StrikeCounts(w.f.letters, t);
      StrikeNeverProlongs(w.f.letters[t]);
    }
  }

  lemma LettersInPlay(hz: int, w: World)
    requires hz >= 100 && Inv(hz, w)
    ensures AllInPlay(w.f.letters)
  {
  }

  /** Whatever keys the interrupts set, the drain loop is over once the program has taken more steps than there were
      falling letters, and it ends with interrupts on. */
  lemma {:induction false} DrainEnds(hz: int, w: World, inputs: seq<Input>)
    requires hz >= 100 && AllInPlay(w.f.letters) && w.pc == AtDrain && CpuSteps(inputs) > Falling(w.f.letters)
    ensures exists n | 0 <= n <= |inputs| ::
              Steps(hz, w, inputs[..n]).pc == AtLoop && Steps(hz, w, inputs[..n]).interruptsOn
    decreases |inputs|
  {
    hide AllInPlay, Step, Falling;
    var w' := Step(hz, w, inputs[0]);
    DrainRound(hz, w, inputs[0]);
    if w'.pc == AtLoop {
      assert Steps(hz, w, inputs[..1]) == w';
    } else {
      DrainEnds(hz, w', inputs[1..]);
      var n :| 0 <= n <= |inputs[1..]| && Steps(hz, w', inputs[1..][..n]).pc == AtLoop
               && Steps(hz, w', inputs[1..][..n]).interruptsOn;
      assert inputs[..n + 1][1..] == inputs[1..][..n];
    }
  }
}
