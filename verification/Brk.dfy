/** The brk system call, which allocates memory once and for all as the program break grows. */
module Brk {
  import opened MachineInt

  /** A call of mm_malloc: its length parameter is an int. */
  datatype Allocation = Allocation(start: Word, len: Int32)

  datatype BrkState = BrkState(cur: Word, max: Word, mallocs: seq<Allocation>)

  function BrkStep(s: BrkState, newBrk: Word): BrkState {
    if newBrk == 0 then s
    else if newBrk > s.max then
      BrkState(newBrk, newBrk, s.mallocs + [Allocation(s.max, Wrap32(newBrk - s.max))])
    else s.(cur := newBrk)
  }

  function BrkRun(s: BrkState, calls: seq<Word>): BrkState {
    if calls == [] then s else BrkStep(BrkRun(s, calls[..|calls| - 1]), calls[|calls| - 1])
  }

  class MemoryManager {
    var curBrk: Word
    var maxBrk: Word
    /** The calls of mm_malloc so far. */
    ghost var mallocs: seq<Allocation>

    constructor ()
      ensures State() == BrkState(0, 0, [])
    {
      curBrk, maxBrk, mallocs := 0, 0, [];
    }

    ghost function State(): BrkState
      reads this
    {
      BrkState(curBrk, maxBrk, mallocs)
    }

    method MmBrk(newBrk: Word) returns (r: Word)
      modifies this
      ensures State() == BrkStep(old(State()), newBrk) && r == curBrk
    {
      if newBrk != 0 {
        if newBrk > maxBrk {
          mallocs := mallocs + [Allocation(maxBrk, Wrap32(newBrk - maxBrk))];
          maxBrk := newBrk;
        }
        curBrk := newBrk;
      }
      return curBrk;
    }
  }

  // ----- Every sequence of calls

  /** The allocations are non-empty, each begins where the one before ended, and together they run from low to high. */
  ghost predicate Tiles(a: seq<Allocation>, low: int, high: int) {
    if a == [] then low == high
    else
      var last := a[|a| - 1];
      last.len > 0 && last.start + last.len == high && Tiles(a[..|a| - 1], low, last.start)
  }

  /** No call raises the break by 2^31 or more at once. */
  ghost predicate IncrementsFit(s: BrkState, calls: seq<Word>) {
    calls == []
    || (IncrementsFit(s, calls[..|calls| - 1])
        && calls[|calls| - 1] - BrkRun(s, calls[..|calls| - 1]).max < TWO_31)
  }

  /** After any calls the current break is at most the maximum, which has never fallen and is the largest argument so
      far; the current break is the last argument that was not 0. */
  lemma {:induction false} RunReachesMaximum(s: BrkState, calls: seq<Word>)
    requires s.cur <= s.max
    ensures var r := BrkRun(s, calls);
            && r.cur <= r.max && s.max <= r.max
            && (r.max == s.max || r.max in calls)
            && (forall i | 0 <= i < |calls| :: calls[i] <= r.max)
            && (if forall i | 0 <= i < |calls| :: calls[i] == 0 then r == s
                else exists i | 0 <= i < |calls| ::
                       calls[i] != 0 && r.cur == calls[i] && forall j | i < j < |calls| :: calls[j] == 0)
  {
    if calls != [] {
      var front, last := calls[..|calls| - 1], calls[|calls| - 1];
      RunReachesMaximum(s, front);
      assert calls == front + [last];
      if last == 0 && !(forall i | 0 <= i < |front| :: front[i] == 0) {
        var i :| 0 <= i < |front| && front[i] != 0 && BrkRun(s, front).cur == front[i]
                 && forall j | i < j < |front| :: front[j] == 0;
        assert calls[i] == front[i];
      }
    }
  }

  lemma {:induction false} TilesAreOrdered(a: seq<Allocation>, low: int, high: int)
    requires Tiles(a, low, high)
    ensures low <= high
  {
    if a != [] {
      TilesAreOrdered(a[..|a| - 1], low, a[|a| - 1].start);
    }
  }

  /** The allocations tile exactly the range the maximum has moved over, if and only if no increment exceeds the int
      that mm_malloc takes. */
  lemma {:induction false} AllocationsTileExactly(s: BrkState, calls: seq<Word>)
    requires s.mallocs == []
    ensures Tiles(BrkRun(s, calls).mallocs, s.max, BrkRun(s, calls).max) <==> IncrementsFit(s, calls)
  {
    if calls != [] {
      var front, last := calls[..|calls| - 1], calls[|calls| - 1];
      var r := BrkRun(s, front);
      AllocationsTileExactly(s, front);
      if last > r.max {
        var next := BrkRun(s, calls).mallocs;
        assert next[..|next| - 1] == r.mallocs;
      }
    }
  }

  /** Every address that the break has passed over lies in exactly one allocation, and no other address in any. */
  lemma {:induction false} EachAddressOnce(a: seq<Allocation>, low: int, high: int, addr: int)
    requires Tiles(a, low, high)
    ensures (exists i | 0 <= i < |a| :: a[i].start <= addr < a[i].start + a[i].len) <==> low <= addr < high
    ensures forall i, j | 0 <= i < j < |a| :: low <= a[i].start && a[i].start + a[i].len <= a[j].start
    ensures forall i | 0 <= i < |a| :: low <= a[i].start && a[i].start + a[i].len <= high
  {
    if a != [] {
      var front, last := a[..|a| - 1], a[|a| - 1];
      EachAddressOnce(front, low, last.start, addr);
      TilesAreOrdered(front, low, last.start);
      assert forall i | 0 <= i < |front| :: a[i] == front[i];
      if low <= addr < last.start {
        var i :| 0 <= i < |front| && front[i].start <= addr < front[i].start + front[i].len;
        assert a[i] == front[i];
      }
    }
  }

  /** A first break at 2^31 asks mm_malloc for a negative length. */
  lemma HugeIncrementIsMistaken()
    ensures BrkRun(BrkState(0, 0, []), [0x8000_0000]).mallocs == [Allocation(0, -0x8000_0000)]
    ensures !IncrementsFit(BrkState(0, 0, []), [0x8000_0000])
  {
    var s, calls := BrkState(0, 0, []), [0x8000_0000];
    assert calls[..0] == [];
    assert BrkRun(s, calls[..0]) == s;
  }
}
