# Verification of the NEMU2021 software stack

A Dafny model of the software that runs on the NEMU machine, and proofs about it. Dafny 4.11;
`dafny verify dfyconfig.toml` checks everything.

The model has four parts.

- **Fixed point** (`MachineInt`, `FixedPoint`, `SingleFloat`, `Newton`, `SquareRoot`, `CubeRoot`, `Descent`,
  `PowLoop`, `Integral`): the 16.16 type FLOAT on 32-bit integers with explicit wrap-around and divide faults; `f2F`
  on the bits of an IEEE 754 single; the Newton loops of `sqrt` and `pow` (a cube root); the trapezoid rule that uses
  them. A variable of type `Int32` or `Float` that is assigned a sum or a product carries a proof that it does not
  overflow, and `.value` of a division a proof that it does not fault.
- **Typing game** (`Letters`, `LinkList`, `Keyboard`, `Strikes`, `Effect`, `Spacing`, `Game`, `MainLoop`): letters in
  a doubly linked list carved from a static pool, key presses that turn them round, and a main loop that timer and
  keyboard interrupts may enter whenever the interrupt flag is on. `LinkList` and `Effect` are the code over the pool
  array; `Letters` and `Strikes` say what it does to the list of letters as a value; `Game` is the interleaved state
  machine built from the same functions; `MainLoop` is one iteration of the loop as code, tied to both. `HZ` is a
  parameter, at least 100 (the game's own header has 100).
- **Kernel** (`Paging`, `Brk`, `Loader`, `IrqHandle`): page tables in physical memory and the processor's walk over
  them, the program break, the ELF loader over one memory that also holds the ramdisk, and the interrupt handler
  lists. `PHY_MEM` is a parameter of the paging model.
- **Sorts** (`Sorting`): quick sort with a moving hole, bubble sort and select sort, on arrays of any length.

Where the code and what it is for differ, the model follows the code and the difference is stated exactly:

- `f2F` is right on the inputs that `SingleFloat.InRange` names and on no others: a shift count of 32 or more is taken
  modulo 32 by the hardware, so 2^-25 becomes 128.0 (`SingleFloat.TinyValueIsMistaken`).
- `sqrt(0)` is 4 units, not 0, and for negative arguments the loop never meets its exit test.
- `pow` is exact on the arguments in `PowLoop.PowDomain` and on no others. Outside it t2 rounds to 0 and the division
  faults, as for 0 and -9, or the quotient is no `int`, or the cast of t2 to `int` loses bits, as for -1192611 and from
  141310832 on (about 2156.2).
- After 2^31 timer interrupts `tick` is negative and the game's assertion `now < tick` fails.
- The assertion of `ramdisk_read` adds modulo 2^32, so a sum that wraps passes it
  (`Loader.WrappedReadPasses`).
- `loader` steps to the next program header only past a `PT_LOAD` one (`elf.c:43-54`), so nothing after the first
  header of another kind is loaded (`Loader.LoadHeaderMissed`). Its loop variable is used without a declaration
  (`elf.c:41`); the model takes it for an integer.
- `add_irq_handle` tests `handle_count <= NR_IRQ_HANDLE`, which lets one registration too many through, and does not
  test for a negative irq.
- `mm_brk` passes the growth of the break to an `int` parameter, which a growth of 2^31 or more does not fit
  (`Brk.HugeIncrementIsMistaken`).
- `update_keypress` returns true with interrupts still off. Interrupts stay off until the drain loop finds no letter to
  strike.

The game's `main` registers only its timer handler; the model lets the keyboard interrupt come as well, as the comment
above `main_loop` describes. Results of `rand()`, bytes from the keyboard port and the moments of interrupts are
parameters, and the theorems hold for all of them.

Small facts that complete the theorems: `FixedPoint.IntegerRoundTrip` (the conversions are inverse on 16-bit integers
and no others), `SingleFloat.ZerosInRange` (both zeros meet the condition of `F2FExact`), `Integral.UpToThirtySix` (the
interval -36..36 meets that of `IntegrateF`), `Keyboard.OneKeyPerCode` (a scan code sets at most one flag, so
`PressKey` never stands for two letters), `Game.CreationReleasesItsKey` (in the state machine too the key released is the
new letter's own) and `Sorting.SortIdempotent` (sorting twice is sorting once).

## Model

| member | source | states |
|---|---|---|
| `FixedPoint.RegisterPairIsScaled` | NEMU2021/lib-common/FLOAT/FLOAT.c:28 | the pair (a >> 16, a << 16) given to idiv is the signed 64-bit number 65536 * a |
| `FixedPoint.FDivFIsTruncatedQuotient` | NEMU2021/lib-common/FLOAT/FLOAT.c:8-30 | F_div_F is the one quotient of 65536 * a by b that rounds toward zero, and faults exactly when b is 0 or that quotient is no int |
| `FixedPoint.FMulFRoundsDown` | NEMU2021/lib-common/FLOAT/FLOAT.c:3-6 | F_mul_F is a * b / 65536 rounded down, also when the product is negative, whenever that is an int |
| `FixedPoint.MultiplyThenDivide` | NEMU2021/lib-common/FLOAT/FLOAT.c:3-30 | for all a and non-zero b whose results fit, multiplying and dividing by b gives a back to within 65536/abs(b) + 1 |
| `SingleFloat.F2F` | NEMU2021/lib-common/FLOAT/FLOAT.c:32-55 | the updates of x and exp compute ToFixed of the bits |
| `SingleFloat.F2FExact` | NEMU2021/lib-common/FLOAT/FLOAT.c:32-55 | for every finite single, f2F is the IEEE 754 value times 65536 truncated toward zero if and only if the bits are InRange, which covers biased exponents 103 to 141 |
| `SingleFloat.OddUnderSignFlip` | NEMU2021/lib-common/FLOAT/FLOAT.c:44-54 | for all bits, flipping the sign bit negates the result modulo 2^32, and negates it outright if and only if it is not the least int |
| `SingleFloat.OverflowWraps` | NEMU2021/lib-common/FLOAT/FLOAT.c:53-54 | for biased exponents 134 to 165 the result is the low 32 bits of the truncated value, too large for an int or not |
| `SingleFloat.ShiftCountsRepeat` | NEMU2021/lib-common/FLOAT/FLOAT.c:50-54 | singles whose biased exponents differ by a multiple of 32, and are shifted in the same direction, have the same result |
| `SingleFloat.MonotoneInRange` | NEMU2021/lib-common/FLOAT/FLOAT.c:32-55 | f2F keeps the order of any two InRange values |
| `SquareRoot.Sqrt` | NEMU2021/lib-common/FLOAT/FLOAT.c:70-79 | for every int x >= 0 the loop ends without fault or overflow; the result t has (t-1)^2 <= 65536 x < (t+1)^2 if and only if x >= 1, and is 4 at 0 |
| `SquareRoot.SqrtReturnsExactly` | NEMU2021/lib-common/FLOAT/FLOAT.c:70-79 | over all ints x, wrap-around and faults included, the loop returns if and only if x >= 0 |
| `SquareRoot.NegativeNeverSettles` | NEMU2021/lib-common/FLOAT/FLOAT.c:74-76 | for x < 0 no correction of any t meets the exit test, even if the difference wraps |
| `SquareRoot.SqrtCorrection` | NEMU2021/lib-common/FLOAT/FLOAT.c:74 | one correction for x >= 0: no fault, t + 1 is above the root from then on, a correction over 6 goes down unless it is the first, one of at most 6 lands within a unit |
| `SquareRoot.SqrtStepFromBelow` | NEMU2021/lib-common/FLOAT/FLOAT.c:74-75 | whatever t was, after a step t + 1 is above the square root |
| `PowLoop.PowExactExactly` | NEMU2021/lib-common/FLOAT/FLOAT.c:81-92 | over all ints x, some round of the loop faults or wraps if and only if x is outside PowDomain: 1..141310831 and twelve intervals below 0, the longest -143407983..-1192612 |
| `PowLoop.Pow` | NEMU2021/lib-common/FLOAT/FLOAT.c:81-92 | for every x in PowDomain the loop ends, and the result is the cube root of 2^32 x, with its sign: at most one unit short of it and at most e beyond, where e is 5 from 32 on, 7 for 12..31 and 15 for 1..11 (of the absolute value) |
| `PowLoop.PowRunInDomain` | NEMU2021/lib-common/FLOAT/FLOAT.c:84-89 | in PowDomain no round faults, every one is exact, and every one that starts with the sign of x leaves t, one unit further, beyond the cube root |
| `PowLoop.RoundAdvances` | NEMU2021/lib-common/FLOAT/FLOAT.c:86-88 | in every state of such a loop the round is exact and leads closer to the end: t falls from the start, lands, passes the root, and comes down to it, but for the two places in Overshot, which the next round leaves by at most 6 |
| `PowLoop.ZeroFaults` | NEMU2021/lib-common/FLOAT/FLOAT.c:86-87 | for x = 0 t falls until its square rounds to 0, and the division faults |
| `PowLoop.LandingNearZeroFaults` | NEMU2021/lib-common/FLOAT/FLOAT.c:86-87 | a negative x whose t falls to within 255 of 0 ends in a divide error |
| `PowLoop.MinusNineFaults` | NEMU2021/lib-common/FLOAT/FLOAT.c:86-87 | -9 is such an x |
| `PowLoop.MinusNextWraps` | NEMU2021/lib-common/FLOAT/FLOAT.c:86 | -1192611 gets to a t whose square does not fit the cast to int |
| `Descent.LandsExactly` | NEMU2021/lib-common/FLOAT/FLOAT.c:84-88 | for every y in 1..2^31, where the fall of t for -y ends a further step is possible if and only if y is in one of the twelve intervals |
| `Descent.AfterBetween` | NEMU2021/lib-common/FLOAT/FLOAT.c:86-88 | as long as t still falls for the largest of three arguments, the t of the middle one stays between the others' |
| `CubeRoot.StepAchieves` | NEMU2021/lib-common/FLOAT/FLOAT.c:86-89 | a possible step leaves t + 1 above the cube root and t at most 11863283, and one of at most 6 ends at most PowError(x) units above it |
| `CubeRoot.NegativeRound` | NEMU2021/lib-common/FLOAT/FLOAT.c:86-88 | a round of -x and -t is the mirror image of the round of x and t, and exact as well |
| `CubeRoot.PowStepFromBelow` | NEMU2021/lib-common/FLOAT/FLOAT.c:86-88 | after any step t + 1 is above the cube root, by the cubic mean inequality in truncated integers |
| `Integral.FInUnitInterval` | NEMU2021/testcase/src/integral.c:4-7 | while its denominator is an int, f is 2^32 over it rounded down, positive and at most 1 |
| `Integral.FIsReciprocal` | NEMU2021/testcase/src/integral.c:4-7 | f(x) is the greatest y with y (1 + 25 x^2) <= 1, with x^2 rounded down |
| `Integral.ComputeT` | NEMU2021/testcase/src/integral.c:9-19 | for samples in [low, high] within [0, 1] and n >= 1 with high n an int, nothing overflows, the result is the trapezoid sum times h, and lies between low n h and high n h and within [0, b-a] |
| `Integral.TrapezoidWeights` | NEMU2021/testcase/src/integral.c:11-17 | which points are sampled: an integrand that is v at one point and 0 elsewhere has the sum v if that is one of a + h, .., a + (n-1) h, half of v if it is a or b, and 0 otherwise |
| `Integral.AffineSum` | NEMU2021/testcase/src/integral.c:9-19 | on an affine integrand the rule is exact: twice the sum is n times the sum of the ends, but for the rounding of half that sum |
| `Integral.IntegrateF` | NEMU2021/testcase/src/integral.c:9-22 | the same for f on any interval on whose ends its denominator is an int |
| `Integral.SumForFFitsExactly` | NEMU2021/testcase/src/integral.c:9-19 | for n >= 1, the sum for f, all of whose samples are positive, is an int on every interval on whose ends its denominator is an int if and only if n <= 32767 |
| `Letters.ScreenConstants` | NEMU2021/game/src/typing/effect.c:56-85 | the constants of the update and the scan are f2F(7.9), int2F(200), -int2F(3) and -int2F(100) |
| `Letters.NewSpeedRange` | NEMU2021/game/src/typing/effect.c:44 | the speed never faults or wraps and lies in [0.5, 1) |
| `Letters.NewLetterPlace` | NEMU2021/game/src/typing/effect.c:41-45 | a new letter is at the top, in column rand % 38 + 1 of 8 pixels, with text rand % 26 |
| `Letters.AdvanceMovesSurvivors` | NEMU2021/game/src/typing/effect.c:51-65 | an update keeps exactly the letters that stay on the screen, in order, each moved once |
| `Letters.UpdateInNumbers` | NEMU2021/game/src/typing/effect.c:51-65 | a letter in play stays if and only if x + v is in 0..12589466, has that as its x then and the same y, text and v, and otherwise counts as a hit if x + v is negative and as a miss if not |
| `Letters.AdvanceConserves` | NEMU2021/game/src/typing/effect.c:56-58 | an update loses what it counts: hits are struck letters and misses are falling ones |
| `Letters.GoneAfterRemaining` | NEMU2021/game/src/typing/effect.c:51-65 | a letter is gone once it has seen Remaining updates, however it is struck meanwhile |
| `Letters.EveryLetterLeaves` | NEMU2021/game/src/typing/effect.c:33-65 | a new letter, struck at any time or never, is gone within 449 updates |
| `Keyboard.KeyState.PressKey` | NEMU2021/game/src/typing/keyboard.c:13-21 | exactly the flags whose code is the scan code are set, the others kept |
| `Keyboard.CodesFollowRows` | NEMU2021/game/src/typing/keyboard.c:5-9 | the code table is the keyboard: Q to P from code 16, A to L from 30, Z to M from 44 |
| `Keyboard.PressedByRow` | NEMU2021/game/src/typing/keyboard.c:13-21 | a scan code from a row sets the flag of the key there and keeps every other |
| `Keyboard.KeyState.KeyboardEvent` | NEMU2021/game/src/typing/keyboard.c:42-46 | the interrupt records the code and presses its key |
| `LinkList.FlyPool.New` | NEMU2021/game/include/adt/linklist.h:46-61 | threads the free list on the first call, then takes its first node, or fails when that has no successor |
| `LinkList.FlyPool.Insert` | NEMU2021/game/include/adt/linklist.h:70-76 | the four stores of _insert, and no other change |
| `LinkList.InsertingLinks` | NEMU2021/game/include/adt/linklist.h:70-76 | _insert between any two neighbours, or at either end, puts the node there in both chains |
| `LinkList.FlyPool.Remove` | NEMU2021/game/include/adt/linklist.h:77-82 | the two stores of _remove, and no other change |
| `LinkList.FlyPool.Free` | NEMU2021/game/include/adt/linklist.h:83-86 | the node becomes the first free one |
| `LinkList.ThreadingGivesShape` | NEMU2021/game/include/adt/linklist.h:49-55 | the first call's loop puts every node on the free list, which ends in the sentinel |
| `LinkList.AddingKeepsShape` | NEMU2021/game/src/typing/effect.c:34-40 | _new and the insertion at the head keep both lists acyclic, disjoint and linked both ways, and add one live node in front |
| `LinkList.RemovingKeepsShape` | NEMU2021/game/src/typing/effect.c:59-61 | _remove, _free and the head's update keep that for any live node, and take just that node out |
| `LinkList.EveryNodeOnOneList` | NEMU2021/game/include/adt/linklist.h:44-61 | every node of the pool is on exactly one of the two lists, and the sentinel is never live |
| `LinkList.ExhaustedWhenFull` | NEMU2021/game/include/adt/linklist.h:56 | the exhaustion test fails exactly when every node but the sentinel is live |
| `Effect.Board.CreateNewLetter` | NEMU2021/game/src/typing/effect.c:33-47 | fails exactly when the pool is exhausted; otherwise the new letter is first, the others follow unchanged, its own key is released and the pool keeps its shape |
| `Effect.Board.UpdateLetterPos` | NEMU2021/game/src/typing/effect.c:51-65 | the walk that frees as it goes leaves Advance of the letters, adds their hits and misses, and keeps the shape of the pool and the invariant of the letters |
| `Effect.Board.UpdateKeypress` | NEMU2021/game/src/typing/effect.c:69-91 | strikes the target and releases its key with interrupts left off, or changes nothing and turns them on; true exactly when there is a target |
| `Effect.Board.DrainKeypresses` | NEMU2021/game/src/typing/game.c:54-55 | the drain loop ends, with interrupts on, at Drained of the letters and flags |
| `Strikes.TargetIsLowest` | NEMU2021/game/src/typing/effect.c:74-81 | the scan finds a falling letter with its key down and none below it, the first of equals, or there is no candidate |
| `Strikes.DrainStrikesLowestPerKey` | NEMU2021/game/src/typing/game.c:54-55 | the drain strikes, for each pressed key, exactly the lowest falling letter of that key, and releases exactly the keys that had one |
| `Strikes.DrainConserves` | NEMU2021/game/src/typing/game.c:54-55 | the drain keeps the number of letters and their invariant and leaves no candidate |
| `Spacing.UpdatesInCreatePeriod` | NEMU2021/game/src/typing/game.c:62-68 | for every HZ >= 100 at least 33 updates fall in every creation period |
| `Spacing.UpdateSpaced` | NEMU2021/game/src/typing/effect.c:51-65 | an update uses up one of each letter's remaining updates, so letters stay spaced |
| `Spacing.DrainSpaced` | NEMU2021/game/src/typing/game.c:54-55 | draining the key presses keeps the letters in play and spaced |
| `Spacing.AtMostFourteen` | NEMU2021/game/src/typing/game.c:60-68 | spaced letters are at most 14 |
| `Game.StepKeepsInv` | NEMU2021/game/src/typing/game.c:37-91 | every statement, and every interrupt that leaves the number of timer interrupts an int, keeps the invariant of control, letters, counters and events |
| `Game.EveryRunKeepsInv` | NEMU2021/game/src/typing/game.c:37-91 | the invariant holds after every sequence of statements and interrupts with fewer than 2^31 timer interrupts |
| `Game.EveryRunIsSafe` | NEMU2021/game/src/typing/game.c:37-91 | with fewer than 2^31 timer interrupts no assertion fails, hlt is reached only with interrupts on, now <= tick, at most 14 letters are live, and hit, miss and num_draw * 2 + 1 do not overflow |
| `Game.SafeExactlyUntilOverflow` | NEMU2021/game/src/typing/game.c:10-50 | every run with at most n timer interrupts is free of failed assertions if and only if n < 2^31: the next one makes tick negative, and `now < tick` fails |
| `Game.IdleReachable` | NEMU2021/game/src/typing/game.c:37-91 | for each n < 2^31 there is a run that waits for its next timer interrupt with exactly n handled |
| `Game.EveryRunOutlivesLetters` | NEMU2021/game/src/typing/effect.c:33-65 | in every run each live letter has a creation of its own in the log, the newer the later, with at most 448 updates after it; a letter is gone after 449 updates |
| `Game.EveryRunCountsFrames` | NEMU2021/game/src/typing/game.c:76-89 | in every run num_draw is the number of redraws since the last tick divisible by HZ / 2, and the frame rate the lesser of 30 and twice the redraws in the half second up to it plus 1, counted from a history of the redraws |
| `Game.PressStrikes` | NEMU2021/game/src/typing/keyboard.c:42-46 | after the interrupt for a key, draining turns round the lowest falling letter of that key, changing nothing but its speed, and leaves the key up |
| `Game.EveryRunConservesLetters` | NEMU2021/game/src/typing/effect.c:33-88 | in every run letters created = hit + miss + live, and letters struck = hit + live ones moving up |
| `Game.BatchingIsInvisible` | NEMU2021/game/src/typing/game.c:50-84 | the events done depend only on now: they are the schedule of the ticks below it, however ticks were batched |
| `Game.ScheduleIsExact` | NEMU2021/game/src/typing/game.c:60-84 | the schedule creates at exactly the ticks divisible by HZ / 3 and updates at exactly those divisible by HZ / 100 |
| `Game.ScheduleIsOrdered` | NEMU2021/game/src/typing/game.c:60-84 | the schedule is in strictly increasing order, so each event comes once |
| `Game.DrainEnds` | NEMU2021/game/src/typing/game.c:54-55 | whatever keys interrupts set, the drain loop is over after at most one step more than there are falling letters, with interrupts on |
| `MainLoop.GameLoop.ProcessTick` | NEMU2021/game/src/typing/game.c:60-84 | one round of the catch-up loop is TickAt and never runs out of nodes |
| `MainLoop.GameLoop.CatchUp` | NEMU2021/game/src/typing/game.c:60-84 | the loop reaches the target with the field that the missed ticks give one by one |
| `MainLoop.GameLoop.Iteration` | NEMU2021/game/src/typing/game.c:42-90 | one iteration of the main loop: nothing if the clock has not moved, else the drain, the missed ticks and at most one redraw give RoundAt of the field; it redraws exactly if a frame tick was missed; the loop's invariant, frame counters included, holds for the next iteration |
| `MainLoop.GameLoop.KeyInterrupt` | NEMU2021/game/src/typing/keyboard.c:42-46 | the keyboard interrupt as code does to the field what the state machine's step does |
| `MainLoop.IterationIsUninterruptedRun` | NEMU2021/game/src/typing/game.c:42-90 | from the comparison of the clock the state machine, left alone by interrupts, comes back to the top of the loop with exactly the time and the field of Iteration |
| `MainLoop.RoundRedraws` | NEMU2021/game/src/typing/game.c:54-90 | an iteration redraws exactly if a tick divisible by HZ / 30 is among those it makes up for |
| `MainLoop.BatchesCompose` | NEMU2021/game/src/typing/game.c:57-60 | catching up in two batches cut anywhere gives the same field as in one |
| `MainLoop.ThreeRollsPerLetter` | NEMU2021/game/src/typing/effect.c:33-47 | the catch-up loop calls rand() three times for each tick that creates a letter and never else |
| `MainLoop.RedrawOncePerBatch` | NEMU2021/game/src/typing/game.c:69-75 | a batch sets the redraw flag exactly if one of its ticks is a frame tick |
| `Paging.InitPage` | NEMU2021/kernel/src/memory/kvm.c:12-61 | both loops together leave the kernel's directory and tables, and change nothing else |
| `Paging.FillDirectory` | NEMU2021/kernel/src/memory/kvm.c:22-28 | each page table is entered at its index and again 768 further |
| `Paging.FillPages` | NEMU2021/kernel/src/memory/kvm.c:36-41 | the loop that runs backwards fills in one entry for every page of physical memory |
| `Paging.InitMm` | NEMU2021/kernel/src/memory/mm.c:36-47 | the user directory has the kernel's entries from KOFFSET up and nothing below; the kernel's tables are untouched |
| `Paging.KernelMapping` | NEMU2021/kernel/src/memory/kvm.c:12-67 | the two-level walk maps [0, PHY_MEM) and [KOFFSET, KOFFSET + PHY_MEM) to physical memory and faults on every other address |
| `Paging.UserMapping` | NEMU2021/kernel/src/memory/mm.c:36-47 | under the user directory every address below KOFFSET faults and every other one is mapped as the kernel maps it |
| `Paging.KernelAccess` | NEMU2021/kernel/src/memory/kvm.c:22-41 | with page protection, the kernel and users may read and write every mapped address, and every other access faults |
| `Paging.UserAccess` | NEMU2021/kernel/src/memory/mm.c:36-47 | under the user directory the same from KOFFSET up, and below every access faults |
| `Paging.EntriesInNumbers` | NEMU2021/kernel/src/memory/kvm.c:22-41 | the words left: 4096 k + 7 for page k, and the address of its table plus 7 at each of a table's two directory indices, 0 at all others |
| `Paging.VaToPaIsTheMapping` | NEMU2021/kernel/include/memory.h:12 | va_to_pa gives the address that the processor finds |
| `Brk.MemoryManager.MmBrk` | NEMU2021/kernel/src/memory/mm.c:18-34 | one call is BrkStep on the two breaks and the allocations, and returns the current break |
| `Brk.RunReachesMaximum` | NEMU2021/kernel/src/memory/mm.c:18-34 | after any calls cur_brk <= max_brk, max_brk never fell and is the largest argument, cur_brk is the last argument that was not 0 |
| `Brk.AllocationsTileExactly` | NEMU2021/kernel/src/memory/mm.c:20-24 | the allocations tile [first max_brk, last max_brk) if and only if no growth exceeds an int |
| `Brk.EachAddressOnce` | NEMU2021/kernel/src/memory/mm.c:20-24 | tiles are pairwise disjoint and cover exactly their range |
| `Loader.LoadProgram` | NEMU2021/kernel/src/elf/elf.c:19-78 | succeeds exactly when the magic number is right and the assertion of every read holds; then each loaded segment has its zeros and, if its bytes lie on the disk, its file bytes; in any case nothing outside the segments and the stack changes |
| `Loader.FileHeaderReadBack` | NEMU2021/kernel/src/elf/elf.c:33-40 | the magic number, entry, table place and header number read are those written in a file header, byte by byte; the magic number is right exactly for 7F 'E' 'L' 'F' |
| `Loader.ProgramHeaderReadBack` | NEMU2021/kernel/src/elf/elf.c:43-53 | the fields read of a program header are those written in its eight words, wherever it stands |
| `Loader.TableReadBack` | NEMU2021/kernel/src/elf/elf.c:40-54 | the i-th header read is the i-th of the table |
| `Loader.LoadSegment` | NEMU2021/kernel/src/elf/elf.c:43-54 | one header: file bytes, zeros up to memsz, nothing else |
| `Loader.RamdiskRead` | NEMU2021/kernel/src/driver/ramdisk.c:13-16 | for all offsets and lengths: succeeds exactly when the 32-bit sum passes the assertion, copies exactly the bytes asked for if they lie in the ramdisk, and changes nothing outside the destination |
| `Loader.AssertionProtectsExactly` | NEMU2021/kernel/src/driver/ramdisk.c:14 | a read that passes the assertion stays in the ramdisk if and only if its sum does not wrap |
| `Loader.LoadCountIsPrefix` | NEMU2021/kernel/src/elf/elf.c:40-54 | the headers loaded are the longest run of PT_LOAD headers at the start of the table |
| `Loader.AllLoadedExactlyWhenFirst` | NEMU2021/kernel/src/elf/elf.c:41-54 | every PT_LOAD header is loaded if and only if none follows a header of another type |
| `IrqHandle.IrqTable.AddIrqHandle` | NEMU2021/kernel/src/irq/irq_handle.c:19-29 | from any handle_count: which calls fail an assertion, which ones go outside an array, and that all others keep the tables and add the routine to its list |
| `IrqHandle.AllAddedExactly` | NEMU2021/kernel/src/irq/irq_handle.c:19-29 | all calls of a sequence succeed if and only if there are at most 32 and each irq is in 0..15 |
| `IrqHandle.OutcomesByPosition` | NEMU2021/kernel/src/irq/irq_handle.c:20-24 | with every irq in range the first 32 calls succeed, the 33rd leaves the pool and every later one fails the assertion |
| `IrqHandle.IrqTable.Dispatch` | NEMU2021/kernel/src/irq/irq_handle.c:38-55 | the branches on irq, and that the routines registered for it are called once each, newest first |
| `IrqHandle.RegisteredIsExact` | NEMU2021/kernel/src/irq/irq_handle.c:24-28 | the list for an irq holds exactly its registrations, in decreasing order |
| `IrqHandle.RoutinesAreTheRegistered` | NEMU2021/kernel/src/irq/irq_handle.c:51-54 | the routines called are those of the registrations in the list, in its order |
| `IrqHandle.ListsAreDisjoint` | NEMU2021/kernel/src/irq/irq_handle.c:24-28 | no pool entry is on two lists |
| `IrqHandle.LengthsSumToCount` | NEMU2021/kernel/src/irq/irq_handle.c:24-28 | the lengths of the lists add up to handle_count |
| `Sorting.Partition` | NEMU2021/testcase/src/quick-sort.c:7-20 | the moving hole leaves a permutation with the old first cell, the pivot, between the cells at most and above it |
| `Sorting.QuickSort` | NEMU2021/testcase/src/quick-sort.c:22-28 | sorts a[p..q], permutes it, leaves all other cells, and ends |
| `Sorting.QuickSortAll` | NEMU2021/testcase/src/quick-sort.c:30-31 | on a whole array the result is Sort of it |
| `Sorting.BubbleSort` | NEMU2021/testcase/src/bubble-sort.c:7-18 | the result is Sort of the array, so the same as quick sort's |
| `Sorting.SelectSort` | NEMU2021/testcase/src/select-sort.c:7-21 | the result is Sort of the array, so the same as quick sort's |
| `Sorting.SortedPermutationIsSort` | NEMU2021/testcase/src/quick-sort.c:30-36 | a sequence has one sorted permutation, Sort |

## Left out

- Pow: outside PowDomain it is proved that a round faults or wraps, not what the loop does after a wrap. The second
  argument is ignored, as in the code.
- Sqrt: for negative x, where SqrtReturnsExactly says that the loop does not return, it is not said whether it goes on
  for ever or faults.
- ComputeT: n <= 0 is left out. For n = 0 the division by n is the None of `FDivInt`; for negative n the loop is not
  entered and there is no sum to speak of.
- EveryRunIsSafe: runs of 2^31 timer interrupts or more, which SafeExactlyUntilOverflow shows to be unsafe. Below that
  `now`, `hit`, `miss` and `num_draw` provably stay ints, so the model keeps them as numbers.
- Iteration: interrupts during an iteration are in `Game` only. Its fields `now` and `tick` are numbers.
- EveryRunIsSafe: the interrupts fall between steps; a step that shares no variable with them, such as the list work
  of one update, is not cut further. `create_new_letter` shares only the flag it clears in its last statement.
- `main_loop` as a method: it never returns, so it is a state machine, and the code is that of one iteration.
- `redraw_screen` and all drawing; `num_draw` and the frame rate are modelled, the pixels are not.
- InitPage: physical memory is an array of words; `cr0`, the translation cache and code executing from the mapped
  pages are not modelled. `init_mm` writes through virtual addresses, which KernelMapping shows to be the physical
  ones the model uses.
- LoadProgram: with `IA32_PAGE` and `HAS_DEVICE` off, so no `mm_malloc`, no program break and no disk driver. Its
  conditions (WellPlaced) are those the code takes for granted: the headers it reads in the first 4096 bytes, filesz <=
  memsz, segments inside memory and apart from the ramdisk, the whole stack and each other. What a read that wraps
  puts into its segment, and what the loader's own variables do to the stack, are not part of this model.
- AddIrqHandle: of a call that goes outside an array the stores inside are done; what the C code overwrites outside is
  not part of this model.
- Dispatch: handlers are identifiers whose calls are recorded; the placeholder panic at the top of `irq_handle` and
  the body of `do_syscall` are not part of this model.
- MmBrk: `mm_malloc` is not part of this model; a call of it is recorded with its range.
- F2F: infinities and NaNs have no value to compare with.
- `format_FLOAT`, `create_video_mapping` and the file system: stubs or run-time patching of machine code.
- The emulator itself (processor, debugger expressions, devices) and the other test cases.
