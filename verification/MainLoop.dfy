/** One iteration of main_loop as code, proved against the tick functions of the state machine. */
module MainLoop {
  import opened Letters
  import opened Keyboard
  import opened LinkList
  import opened Strikes
  import opened Effect
  import opened Spacing
  import opened Game

  /** The field after the ticks from .. to - 1, where the k-th call of rand() returns rand(k). */
  function Simulated(hz: int, rand: nat -> nat, k: nat, from: nat, to: nat, f: Field): Field
    requires hz >= 100
    decreases if from < to then to - from else 0
  {
    if from >= to then f
    else
      var g := TickAt(hz, from, f, rand(k), rand(k + 1), rand(k + 2));
      Simulated(hz, rand, k + Rolls(hz, from), from + 1, to, g)
  }

  lemma SimulatedStep(hz: int, rand: nat -> nat, k: nat, from: nat, to: nat, f: Field)
    requires hz >= 100
    ensures from >= to ==> Simulated(hz, rand, k, from, to, f) == f
    ensures from < to ==>
              Simulated(hz, rand, k, from, to, f) ==
              Simulated(hz, rand, k + Rolls(hz, from), from + 1, to,
                        TickAt(hz, from, f, rand(k), rand(k + 1), rand(k + 2)))
  {
  }

  /** How often a tick calls rand(). */
  function Rolls(hz: int, now: nat): nat
    requires hz >= 100
  {
    if now % CreatePeriod(hz) == 0 then 3 else 0
  }

  function RollsBetween(hz: int, from: nat, to: nat): nat
    requires hz >= 100
    decreases if from < to then to - from else 0
  {
    if from >= to then 0 else Rolls(hz, from) + RollsBetween(hz, from + 1, to)
  }

  /** The ticks from .. to - 1 that create a letter. */
  function CreationTicks(hz: int, from: int, to: int): set<int>
    requires hz >= 100
  {
    set n: int | from <= n < to && n % (hz / 3) == 0
  }

  lemma CreationTicksStep(hz: int, from: int, to: int)
    requires hz >= 100
    ensures from >= to ==> CreationTicks(hz, from, to) == {}
    ensures from < to ==>
              CreationTicks(hz, from, to) ==
              CreationTicks(hz, from + 1, to) + if from % (hz / 3) == 0 then {from} else {}
    ensures from !in CreationTicks(hz, from + 1, to)
  {
  }

  /** Three results of rand() for each letter created, and no others. */
  lemma {:induction false} ThreeRollsPerLetter(hz: int, from: nat, to: nat)
    requires hz >= 100
    ensures RollsBetween(hz, from, to) == 3 * |CreationTicks(hz, from, to)|
    decreases if from < to then to - from else 0
  {
    hide CreationTicks;
    CreationTicksStep(hz, from, to);
    if from < to {
      ThreeRollsPerLetter(hz, from + 1, to);
    }
  }

  /** Catching up in two batches, cut anywhere, leaves the field that one batch leaves. */
  lemma {:induction false} BatchesCompose(hz: int, rand: nat -> nat, k: nat, from: nat, mid: nat, to: nat, f: Field)
    requires hz >= 100 && from <= mid <= to
    ensures Simulated(hz, rand, k, from, to, f) ==
            Simulated(hz, rand, k + RollsBetween(hz, from, mid), mid, to, Simulated(hz, rand, k, from, mid, f))
    decreases mid - from
  {
    hide TickAt, Rolls;
    if from < mid {
      SimulatedStep(hz, rand, k, from, to, f);
      SimulatedStep(hz, rand, k, from, mid, f);
      BatchesCompose(hz, rand, k + Rolls(hz, from), from + 1, mid, to,
                     TickAt(hz, from, f, rand(k), rand(k + 1), rand(k + 2)));
    }
  }

  lemma TickRedraws(hz: int, now: nat, f: Field, ry: nat, rv: nat, rt: nat)
    requires hz >= 100
    ensures TickAt(hz, now, f, ry, rv, rt).redraw == (f.redraw || now % (hz / 30) == 0)
  {
  }

  ghost predicate FrameDue(hz: int, from: nat, to: nat)
    requires hz >= 100
  {
    exists n: nat | from <= n < to :: n % (hz / 30) == 0
  }

  /** A batch asks for one redraw if any of its ticks is a frame tick, however many are. */
  lemma {:induction false} RedrawOncePerBatch(hz: int, rand: nat -> nat, k: nat, from: nat, to: nat, f: Field)
    requires hz >= 100
    ensures Simulated(hz, rand, k, from, to, f).redraw == (f.redraw || FrameDue(hz, from, to))
    decreases if from < to then to - from else 0
  {
    hide TickAt, Rolls;
    SimulatedStep(hz, rand, k, from, to, f);
    if from < to {
      var g := TickAt(hz, from, f, rand(k), rand(k + 1), rand(k + 2));
      RedrawOncePerBatch(hz, rand, k + Rolls(hz, from), from + 1, to, g);
      TickRedraws(hz, from, f, rand(k), rand(k + 1), rand(k + 2));
      if FrameDue(hz, from, to) {
        var n: nat :| from <= n < to && n % (hz / 30) == 0;
        assert n != from ==> FrameDue(hz, from + 1, to);
      }
    }
  }

  /** The field after the first statements of an iteration: nothing to redraw yet, and the key presses drained. */
  function DrainedAt(f: Field): Field {
    f.(letters := Drained(f.letters, f.keys).0, keys := Drained(f.letters, f.keys).1, redraw := false)
  }

  /** The redraw, if one is asked for, is counted. */
  function Redrawn(f: Field): Field {
    if f.redraw then f.(numDraw := f.numDraw + 1) else f
  }

  /** The field after an iteration of the main loop that finds the clock at target > now. */
  function RoundAt(hz: int, rand: nat -> nat, k: nat, now: nat, target: nat, f: Field): Field
    requires hz >= 100
  {
    Redrawn(Simulated(hz, rand, k, now, target, DrainedAt(f)))
  }

  /** An iteration redraws exactly if a frame tick is among those it makes up for. */
  lemma RoundRedraws(hz: int, rand: nat -> nat, k: nat, now: nat, target: nat, f: Field)
    requires hz >= 100
    ensures RoundAt(hz, rand, k, now, target, f).redraw == FrameDue(hz, now, target)
  {
    RedrawOncePerBatch(hz, rand, k, now, target, DrainedAt(f));
  }

  lemma DrainKeepsFieldReady(hz: int, now: nat, f: Field)
    requires hz >= 100 && FieldReady(hz, now, f)
    ensures FieldReady(hz, now, DrainedAt(f))
  {
    hide Spaced, AllInPlay, UpdatesSinceCreation;
    DrainSpaced(f.letters, f.keys, UpdatesSinceCreation(hz, AtLoop, now));
  }

  // ----- The iteration as a run of the state machine

  ghost predicate AllCpu(inputs: seq<Input>) {
    forall i | 0 <= i < |inputs| :: inputs[i].Cpu?
  }

  /** Some run of the program from w without interrupts comes to the top of the loop with now and the field given. */
  ghost predicate LeadsTo(hz: int, w: World, now: nat, f: Field)
    requires hz >= 100
  {
    exists inputs :: AllCpu(inputs) && AtTop(Steps(hz, w, inputs), w.tick, now, f)
  }

  predicate AtTop(w: World, tick: int, now: nat, f: Field) {
    w.pc == AtHlt && w.interruptsOn && w.tick == tick && w.now == now && w.f == f
  }

  lemma LeadsStep(hz: int, w: World, ry: nat, rv: nat, rt: nat, now: nat, f: Field)
    requires hz >= 100 && LeadsTo(hz, CpuStep(hz, w, ry, rv, rt), now, f)
    ensures LeadsTo(hz, w, now, f)
  {
    hide CpuStep, AtTop;
    SameTick(hz, w, ry, rv, rt);
    var w' := CpuStep(hz, w, ry, rv, rt);
    var inputs :| AllCpu(inputs) && AtTop(Steps(hz, w', inputs), w'.tick, now, f);
    var longer := [Cpu(ry, rv, rt)] + inputs;
    assert longer[1..] == inputs;
    assert Steps(hz, w, longer) == Steps(hz, w', inputs);
    assert AllCpu(longer);
  }

  lemma SameTick(hz: int, w: World, ry: nat, rv: nat, rt: nat)
    requires hz >= 100
    ensures CpuStep(hz, w, ry, rv, rt).tick == w.tick
  {
  }

  lemma TopLeads(hz: int, w: World)
    requires hz >= 100 && w.pc == AtHlt && w.interruptsOn
    ensures LeadsTo(hz, w, w.now, w.f)
  {
    assert Steps(hz, w, []) == w;
  }

  /** The catch-up loop and the redraw. */
  lemma {:induction false} CatchUpLeads(hz: int, w: World, rand: nat -> nat, k: nat)
    requires hz >= 100 && w.pc == AtLoop && w.interruptsOn && w.now <= w.target && FieldReady(hz, w.now, w.f)
    ensures LeadsTo(hz, w, w.target, Redrawn(Simulated(hz, rand, k, w.now, w.target, w.f)))
    decreases w.target - w.now
  {
    hide LeadsTo, FieldReady, CreateAt, UpdateAt, CountAt, Simulated, Rolls, CreateEvent, UpdateEvent;
    var end := Redrawn(Simulated(hz, rand, k, w.now, w.target, w.f));
    SimulatedStep(hz, rand, k, w.now, w.target, w.f);
    var a := CpuStep(hz, w, 0, 0, 0);
    if w.now == w.target {
      var b := CpuStep(hz, a, 0, 0, 0);
      assert b.f == end;
      TopLeads(hz, b);
      LeadsStep(hz, a, 0, 0, 0, w.target, end);
    } else {
      var b := CpuStep(hz, a, rand(k), rand(k + 1), rand(k + 2));
      TickKeepsFieldReady(hz, w.now, w.f, rand(k), rand(k + 1), rand(k + 2));
      assert b.pc == AtUpdate && b.f == CreateAt(hz, w.now, w.f, rand(k), rand(k + 1), rand(k + 2));
      var c := CpuStep(hz, b, 0, 0, 0);
      assert c.pc == AtCount && c.f == UpdateAt(hz, w.now, b.f);
      var d := CpuStep(hz, c, 0, 0, 0);
      assert d.f == TickAt(hz, w.now, w.f, rand(k), rand(k + 1), rand(k + 2));
      CatchUpLeads(hz, d, rand, k + Rolls(hz, w.now));
      LeadsStep(hz, c, 0, 0, 0, w.target, end);
      LeadsStep(hz, b, 0, 0, 0, w.target, end);
      LeadsStep(hz, a, rand(k), rand(k + 1), rand(k + 2), w.target, end);
    }
    LeadsStep(hz, w, 0, 0, 0, w.target, end);
  }

  /** The drain loop, and what follows it. */
  lemma {:induction false} DrainLeads(hz: int, w: World, rand: nat -> nat, k: nat)
    requires hz >= 100 && w.pc == AtDrain && w.now <= w.target && FieldReady(hz, w.now, w.f) && !w.f.redraw
    ensures LeadsTo(hz, w, w.target, Redrawn(Simulated(hz, rand, k, w.now, w.target, DrainedAt(w.f))))
    decreases Falling(w.f.letters)
  {
    hide LeadsTo, Simulated, Target, Falling, UpdatesSinceCreation, Redrawn;
    var t := Target(w.f.letters, w.f.keys);
    var w' := CpuStep(hz, w, 0, 0, 0);
    if t == -1 {
      TargetIsLowest(w.f.letters, w.f.keys);
      assert DrainedAt(w.f) == w.f;
      CatchUpLeads(hz, w', rand, k);
    } else {
      TargetFalls(w.f.letters, w.f.keys);
      StrikeSpaced(w.f.letters, UpdatesSinceCreation(hz, AtLoop, w.now), t);
      assert DrainedAt(w'.f) == DrainedAt(w.f);
      DrainLeads(hz, w', rand, k);
    }
    LeadsStep(hz, w, 0, 0, 0, w.target, Redrawn(Simulated(hz, rand, k, w.now, w.target, DrainedAt(w.f))));
  }

  /** From where the clock is compared, the state machine without interrupts does what the iteration as code does. */
  lemma IterationIsUninterruptedRun(hz: int, w: World, rand: nat -> nat, k: nat)
    requires hz >= 100 && w.pc == AtCompare && w.now <= w.tick && FieldReady(hz, w.now, w.f)
    ensures LeadsTo(hz, w, w.tick,
                    if w.now == w.tick then w.f else RoundAt(hz, rand, k, w.now, w.tick, w.f))
  {
    hide LeadsTo, FieldReady, Simulated, Drained;
    var a := CpuStep(hz, w, 0, 0, 0);
    if w.now == w.tick {
      TopLeads(hz, a);
      LeadsStep(hz, w, 0, 0, 0, w.tick, w.f);
    } else {
      var b := CpuStep(hz, a, 0, 0, 0);
      var c := CpuStep(hz, b, 0, 0, 0);
      var end := RoundAt(hz, rand, k, w.now, w.tick, w.f);
      assert FieldReady(hz, c.now, c.f) by {
        RedrawIrrelevant(hz, w.now, w.f);
      }
      assert DrainedAt(c.f) == DrainedAt(w.f);
      DrainLeads(hz, c, rand, k);
      LeadsStep(hz, b, 0, 0, 0, w.tick, end);
      LeadsStep(hz, a, 0, 0, 0, w.tick, end);
      LeadsStep(hz, w, 0, 0, 0, w.tick, end);
    }
  }

  lemma RedrawIrrelevant(hz: int, now: nat, f: Field)
    requires hz >= 100 && FieldReady(hz, now, f)
    ensures FieldReady(hz, now, f.(redraw := false))
  {
  }

  class GameLoop {
    const hz: int
    const effect: Board
    const rand: nat -> nat
    var rolls: nat
    var now: nat
    var redraw: bool
    var numDraw: nat
    var realFps: nat
    /** The number of ticks processed before each redraw. */
    ghost var draws: seq<nat>

    constructor (hz: int, rand: nat -> nat)
      requires hz >= 100
      ensures Valid() && View() == Initial().f && this.hz == hz && this.rand == rand && now == rolls == 0
    {
      this.hz := hz;
      this.rand := rand;
      effect := new Board(POOL_SIZE);
      rolls, now := 0, 0;
      redraw, numDraw, realFps, draws := false, 0, 0, [];
      new;
      assert effect.Screen() == [];
    }

    ghost predicate Valid()
      reads this, effect, effect.flies, effect.flies.pool, effect.keys, effect.keys.pressed
    {
      && hz >= 100
      && effect.Valid() && effect.flies.pool.Length == POOL_SIZE + 1
      && FieldReady(hz, now, View()) && FramesInv(hz, now, numDraw, realFps, draws)
    }

    ghost function View(): Field
      reads this, effect, effect.flies, effect.flies.pool, effect.keys, effect.keys.pressed
      requires effect.Valid()
    {
      Field(effect.Screen(), effect.keys.pressed[..], effect.hit, effect.miss, redraw, numDraw, realFps)
    }

    method CreateIfDue()
      requires hz >= 100 && effect.Valid() && |effect.Screen()| < effect.flies.pool.Length - 1
      modifies this`rolls, effect, effect.flies`freeHead, effect.flies.pool, effect.keys.pressed
      ensures effect.Valid() && rolls == old(rolls) + Rolls(hz, now)
      ensures View() == CreateAt(hz, now, old(View()), rand(old(rolls)), rand(old(rolls) + 1), rand(old(rolls) + 2))
    {
      if now % (hz / 3) == 0 {
        var ok := effect.CreateNewLetter(rand(rolls), rand(rolls + 1), rand(rolls + 2));
        rolls := rolls + 3;
      }
    }

    method UpdateIfDue()
      requires hz >= 100 && effect.Valid()
      modifies effect, effect.flies`freeHead, effect.flies.pool
      ensures effect.Valid() && View() == UpdateAt(hz, now, old(View()))
    {
      if now % (hz / 100) == 0 {
        effect.UpdateLetterPos();
      }
    }

    method CountFrames()
      requires effect.Valid() && hz >= 100
      modifies this`redraw, this`numDraw, this`realFps
      ensures effect.Valid() && View() == CountAt(hz, now, old(View()))
    {
      if now % (hz / FPS) == 0 {
        redraw := true;
      }
      if now % (hz / 2) == 0 {
        var fps := numDraw * 2 + 1;
        if fps > FPS {
          fps := FPS;
        }
        realFps := fps;
        numDraw := 0;
      }
    }

    /** One round of the catch-up loop; there is always a node for the new letter. */
    method ProcessTick()
      requires Valid()
      modifies this`rolls, this`now, this`redraw, this`numDraw, this`realFps, effect, effect.flies`freeHead,
               effect.flies.pool, effect.keys.pressed
      ensures Valid() && now == old(now) + 1 && rolls == old(rolls) + Rolls(hz, old(now))
      ensures View() == TickAt(hz, old(now), old(View()), rand(old(rolls)), rand(old(rolls) + 1), rand(old(rolls) + 2))
    {
      hide FieldReady, FramesInv, CreateAt, UpdateAt, CountAt;
      ghost var f, n := View(), now;
      ghost var g := CreateAt(hz, n, f, rand(rolls), rand(rolls + 1), rand(rolls + 2));
      ghost var h := CountAt(hz, n, UpdateAt(hz, n, g));
      TickKeepsFieldReady(hz, n, f, rand(rolls), rand(rolls + 1), rand(rolls + 2));
      assert FieldReady(hz, n + 1, h);
      TickKeepsFrames(hz, n, f, rand(rolls), rand(rolls + 1), rand(rolls + 2), draws);
      CreateIfDue();
      assert View() == g;
      UpdateIfDue();
      CountFrames();
      assert View() == h;
      now := now + 1;
      assert View() == h;
    }

    /** `while (now < target)`: every missed tick is made up for, one at a time. */
    method CatchUp(target: nat)
      requires Valid() && now <= target
      modifies this`rolls, this`now, this`redraw, this`numDraw, this`realFps, effect, effect.flies`freeHead,
               effect.flies.pool, effect.keys.pressed
      ensures Valid() && now == target
      ensures View() == Simulated(hz, rand, old(rolls), old(now), target, old(View()))
    {
      hide TickAt, FieldReady, Shape, AllInPlay, Rolls, Simulated;
      ghost var f := View();
      ghost var end := Simulated(hz, rand, rolls, now, target, f);
      while now < target
        invariant Valid() && now <= target
        invariant View() == f && Simulated(hz, rand, rolls, now, target, f) == end
      {
        ghost var n, k := now, rolls;
        SimulatedStep(hz, rand, k, n, target, f);
        ProcessTick();
        f := TickAt(hz, n, f, rand(k), rand(k + 1), rand(k + 2));
      }
      SimulatedStep(hz, rand, rolls, now, target, f);
    }

    /** One iteration of the main loop, when no interrupt comes after tick is read. It redraws, and counts that, exactly
        if a frame tick is among those it makes up for. */
    method Iteration(tick: nat)
      requires Valid() && now <= tick
      modifies this`rolls, this`now, this`redraw, this`numDraw, this`realFps, this`draws, effect,
               effect.flies`freeHead, effect.flies.pool, effect.keys.pressed
      ensures Valid() && now == tick
      ensures View() == if old(now) == tick then old(View())
                        else RoundAt(hz, rand, old(rolls), old(now), tick, old(View()))
      ensures draws == old(draws) + if FrameDue(hz, old(now), tick) then [tick] else []
    {
      hide TickAt, UpdatesSinceCreation, Spaced, Shape, AllInPlay, Rolls, Drained, Simulated, FramesInv, FrameDue;
      if now == tick {
        NoFrameDue(hz, now);
        return;
      }
      assert now < tick;
      var target := tick;
      ghost var f, n := View(), now;
      DrainKeepsFieldReady(hz, now, f);
      RoundRedraws(hz, rand, rolls, now, target, f);
      redraw := false;
      effect.DrainKeypresses();
      assert View() == DrainedAt(f);
      CatchUp(target);
      ghost var g := View();
      if redraw {
        RedrawKeepsFrames(hz, now, numDraw, realFps, draws);
        numDraw := numDraw + 1;
        draws := draws + [now];
        assert View() == g.(numDraw := g.numDraw + 1);
      }
      assert FrameDue(hz, n, target) == redraw;
    }

    lemma NoFrameDue(hz: int, n: nat)
      requires hz >= 100
      ensures !FrameDue(hz, n, n)
    {
    }

    /** The keyboard interrupt does to the field what the state machine's step says. */
    method KeyInterrupt(scanCode: int)
      requires Valid()
      modifies effect.keys`keyCode, effect.keys.pressed
      ensures Valid() && effect.keys.keyCode == scanCode
      ensures forall w: World | w.f == old(View()) && w.interruptsOn && w.pc != Panicked ::
                && Step(hz, w, Key(scanCode)).f == View() && Step(hz, w, Key(scanCode)).keyCode == scanCode
    {
      hide Shape, AllInPlay, UpdatesSinceCreation, Spaced, FramesInv, Pressed;
      effect.keys.KeyboardEvent(scanCode);
    }
  }
}
