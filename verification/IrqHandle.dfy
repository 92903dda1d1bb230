/** Interrupt handler lists carved from one pool, and the dispatch that walks them. */
module IrqHandle {
  const NR_IRQ_HANDLE := 32
  const NR_HARD_INTR := 16
  const NULL := -1

  /** A handler is known by an identifier; calling it is recorded, not modelled. */
  type Routine = int

  datatype Irq = Irq(routine: Routine, next: int)

  datatype Registration = Registration(irq: int, routine: Routine)

  datatype AddOutcome = Added | AssertionFailed | OutsideArray

  datatype DispatchOutcome = Panic | Syscall | Called(routines: seq<Routine>)

  // ----- The registrations so far

  /** The last of the first n registrations for irq, or NULL. */
  function Latest(history: seq<Registration>, n: nat, irq: int): (i: int)
    requires n <= |history|
    ensures NULL <= i < n
  {
    if n == 0 then NULL else if history[n - 1].irq == irq then n - 1 else Latest(history, n - 1, irq)
  }

  lemma LatestStep(history: seq<Registration>, n: nat, irq: int)
    requires 0 < n <= |history|
    ensures Latest(history, n, irq) == if history[n - 1].irq == irq then n - 1 else Latest(history, n - 1, irq)
  {
  }

  /** The registrations for irq among the first n, newest first. */
  function Registered(history: seq<Registration>, n: nat, irq: int): seq<int>
    requires n <= |history|
  {
    if n == 0 then []
    else (if history[n - 1].irq == irq then [n - 1] else []) + Registered(history, n - 1, irq)
  }

  /** Their routines: what a dispatch of irq should call. */
  function Routines(history: seq<Registration>, n: nat, irq: int): seq<Routine>
    requires n <= |history|
  {
    if n == 0 then []
    else (if history[n - 1].irq == irq then [history[n - 1].routine] else []) + Routines(history, n - 1, irq)
  }

  /** Registered lists exactly the registrations for irq, each once, newest first. */
  lemma {:induction false} RegisteredIsExact(history: seq<Registration>, n: nat, irq: int)
    requires n <= |history|
    ensures var s := Registered(history, n, irq);
            && (forall k :: k in s <==> 0 <= k < n && history[k].irq == irq)
            && (forall i, j | 0 <= i < j < |s| :: s[i] > s[j])
  {
    if n != 0 {
      RegisteredIsExact(history, n - 1, irq);
      var first := if history[n - 1].irq == irq then [n - 1] else [];
      var rest := Registered(history, n - 1, irq);
      assert Registered(history, n, irq) == first + rest;
      assert forall j | 0 <= j < |rest| :: rest[j] in rest;
    }
  }

  lemma {:induction false} RoutinesAreTheRegistered(history: seq<Registration>, n: nat, irq: int)
    requires n <= |history|
    ensures var s := Registered(history, n, irq);
            && |Routines(history, n, irq)| == |s|
            && forall i | 0 <= i < |s| ::
                 0 <= s[i] < |history| && Routines(history, n, irq)[i] == history[s[i]].routine
  {
    if n != 0 {
      RoutinesAreTheRegistered(history, n - 1, irq);
    }
  }

  /** The head of the list for irq, and after it the list as it was when that head was registered. */
  lemma {:induction false} RoutinesFromLatest(history: seq<Registration>, n: nat, irq: int)
    requires n <= |history|
    ensures var i := Latest(history, n, irq);
            && NULL <= i < n && (i != NULL ==> history[i].irq == irq)
            && Routines(history, n, irq) == if i == NULL then [] else [history[i].routine] + Routines(history, i, irq)
  {
    if n != 0 && history[n - 1].irq != irq {
      RoutinesFromLatest(history, n - 1, irq);
      assert Routines(history, n, irq) == [] + Routines(history, n - 1, irq);
    }
  }

  /** The lengths of the lists for irq 0 .. q - 1. */
  function TotalLength(history: seq<Registration>, n: nat, q: nat): nat
    requires n <= |history|
  {
    if q == 0 then 0 else TotalLength(history, n, q - 1) + |Registered(history, n, q - 1)|
  }

  lemma {:induction false} OneMoreRegistration(history: seq<Registration>, n: nat, q: nat)
    requires 0 < n <= |history|
    ensures TotalLength(history, n, q) ==
            TotalLength(history, n - 1, q) + if 0 <= history[n - 1].irq < q then 1 else 0
  {
    if q != 0 {
      OneMoreRegistration(history, n, q - 1);
    }
  }

  /** The lists use up the handed-out part of the pool. */
  lemma {:induction false} LengthsSumToCount(history: seq<Registration>, n: nat, q: nat)
    requires n <= |history| && forall i | 0 <= i < n :: 0 <= history[i].irq < q
    ensures TotalLength(history, n, q) == n
  {
    if n == 0 {
      NoRegistrations(history, q);
    } else {
      OneMoreRegistration(history, n, q);
      LengthsSumToCount(history, n - 1, q);
    }
  }

  lemma {:induction false} NoRegistrations(history: seq<Registration>, q: nat)
    ensures TotalLength(history, 0, q) == 0
  {
    if q != 0 {
      NoRegistrations(history, q - 1);
    }
  }

  lemma ListsAreDisjoint(history: seq<Registration>, n: nat, p: int, q: int, k: int)
    requires n <= |history| && p != q
    ensures !(k in Registered(history, n, p) && k in Registered(history, n, q))
  {
    RegisteredIsExact(history, n, p);
    RegisteredIsExact(history, n, q);
  }

  lemma {:induction false} HistoryGrows(history: seq<Registration>, r: Registration, n: nat, irq: int)
    requires n <= |history|
    ensures Latest(history + [r], n, irq) == Latest(history, n, irq)
  {
    if n != 0 {
      HistoryGrows(history, r, n - 1, irq);
    }
  }

  // ----- The tables

  /** The i-th pool entry is the i-th registration, linked to the one before it for the same irq. */
  ghost predicate Tables(pool: seq<Irq>, handles: seq<int>, history: seq<Registration>) {
    && |pool| == NR_IRQ_HANDLE && |handles| == NR_HARD_INTR && |history| <= NR_IRQ_HANDLE
    && (forall i | 0 <= i < |history| :: 0 <= history[i].irq < NR_HARD_INTR)
    && (forall i | 0 <= i < |history| :: pool[i] == Irq(history[i].routine, Latest(history, i, history[i].irq)))
    && (forall q | 0 <= q < NR_HARD_INTR :: handles[q] == Latest(history, |history|, q))
  }

  lemma TableSizes(pool: seq<Irq>, handles: seq<int>, history: seq<Registration>, q: int)
    requires Tables(pool, handles, history) && 0 <= q < NR_HARD_INTR
    ensures |pool| == NR_IRQ_HANDLE && |handles| == NR_HARD_INTR && |history| <= NR_IRQ_HANDLE
    ensures handles[q] == Latest(history, |history|, q)
  {
  }

  lemma TableEntry(pool: seq<Irq>, handles: seq<int>, history: seq<Registration>, i: int)
    requires Tables(pool, handles, history) && 0 <= i < |history|
    ensures i < |pool| && pool[i] == Irq(history[i].routine, Latest(history, i, history[i].irq))
  {
  }

  lemma AddingKeepsTables(pool: seq<Irq>, handles: seq<int>, history: seq<Registration>, r: Registration)
    requires Tables(pool, handles, history) && |history| < NR_IRQ_HANDLE && 0 <= r.irq < NR_HARD_INTR
    ensures Tables(pool[|history| := Irq(r.routine, handles[r.irq])], handles[r.irq := |history|], history + [r])
  {
    hide Latest;
    var n, after := |history|, history + [r];
    var pool', handles' := pool[n := Irq(r.routine, handles[r.irq])], handles[r.irq := n];
    forall i | 0 <= i < |after|
      ensures 0 <= after[i].irq < NR_HARD_INTR
      ensures pool'[i] == Irq(after[i].routine, Latest(after, i, after[i].irq))
    {
      HistoryGrows(history, r, i, after[i].irq);
      assert i < n ==> after[i] == history[i];
    }
    forall q | 0 <= q < NR_HARD_INTR
      ensures handles'[q] == Latest(after, n + 1, q)
    {
      HistoryGrows(history, r, n, q);
      LatestStep(after, n + 1, q);
    }
  }

  // ----- Which calls succeed

  /** What a call does when handle_count is count. The bound on handle_count lets one call too many through, which
      writes past the pool; that irq is not negative is not checked. */
  function Outcome(count: nat, irq: int): AddOutcome {
    if !(irq < NR_HARD_INTR) || !(count <= NR_IRQ_HANDLE) then AssertionFailed
    else if irq < 0 || count == NR_IRQ_HANDLE then OutsideArray
    else Added
  }

  /** handle_count after calls for irqs. */
  function CountAfter(irqs: seq<int>): nat {
    if irqs == [] then 0
    else
      var count := CountAfter(irqs[..|irqs| - 1]);
      count + if Outcome(count, irqs[|irqs| - 1]) == AssertionFailed then 0 else 1
  }

  function OutcomeOf(irqs: seq<int>, i: nat): AddOutcome
    requires i < |irqs|
  {
    Outcome(CountAfter(irqs[..i]), irqs[i])
  }

  /** With every irq in its range the calls succeed up to the 32nd, the 33rd leaves the pool, and all later ones fail
      the assertion. */
  lemma {:induction false} OutcomesByPosition(irqs: seq<int>, i: nat)
    requires i < |irqs| && forall k | 0 <= k <= i :: 0 <= irqs[k] < NR_HARD_INTR
    ensures CountAfter(irqs[..i]) == if i <= NR_IRQ_HANDLE then i else NR_IRQ_HANDLE + 1
    ensures OutcomeOf(irqs, i) ==
            if i < NR_IRQ_HANDLE then Added else if i == NR_IRQ_HANDLE then OutsideArray else AssertionFailed
  {
    if i > 0 {
      OutcomesByPosition(irqs, i - 1);
      assert irqs[..i][..i - 1] == irqs[..i - 1];
    }
  }

  /** All calls of a sequence succeed if and only if there are at most 32 and each irq is in its range. */
  lemma AllAddedExactly(irqs: seq<int>)
    ensures (forall i | 0 <= i < |irqs| :: OutcomeOf(irqs, i) == Added) <==>
            |irqs| <= 32 && forall i | 0 <= i < |irqs| :: 0 <= irqs[i] < 16
  {
    if forall i | 0 <= i < |irqs| :: 0 <= irqs[i] < NR_HARD_INTR {
      forall i | 0 <= i < |irqs|
        ensures OutcomeOf(irqs, i) == Added <==> i < NR_IRQ_HANDLE
      {
        OutcomesByPosition(irqs, i);
      }
      if |irqs| > NR_IRQ_HANDLE {
        assert OutcomeOf(irqs, NR_IRQ_HANDLE) != Added;
      }
    } else {
      var i :| 0 <= i < |irqs| && !(0 <= irqs[i] < NR_HARD_INTR);
      assert OutcomeOf(irqs, i) != Added;
    }
  }

  class IrqTable {
    const pool: array<Irq>
    const handles: array<int>
    var handleCount: nat
    ghost var history: seq<Registration>

    ghost predicate Valid()
      reads this, pool, handles
    {
      Tables(pool[..], handles[..], history) && handleCount == |history|
    }

    constructor ()
      ensures Valid() && history == []
    {
      pool := new Irq[NR_IRQ_HANDLE](i => Irq(0, NULL));
      handles := new int[NR_HARD_INTR](i => NULL);
      handleCount := 0;
      history := [];
    }

    /** Of a call that leaves an array only the stores within the arrays are done. Every other call keeps the tables and
        makes the routine the first of its list. */
    method AddIrqHandle(irq: int, routine: Routine) returns (r: AddOutcome)
      requires pool.Length == NR_IRQ_HANDLE && handles.Length == NR_HARD_INTR
      modifies this`handleCount, this`history, pool, handles
      ensures r == Outcome(old(handleCount), irq)
      ensures handleCount == old(handleCount) + if r == AssertionFailed then 0 else 1
      ensures history == if r == Added then old(history) + [Registration(irq, routine)] else old(history)
      ensures r == AssertionFailed ==> pool[..] == old(pool[..]) && handles[..] == old(handles[..])
      ensures old(Valid()) && r != OutsideArray ==> Valid()
    {
      if !(irq < NR_HARD_INTR) || !(handleCount <= NR_IRQ_HANDLE) {
        return AssertionFailed;
      }
      if Valid() && 0 <= irq && handleCount < NR_IRQ_HANDLE {
        AddingKeepsTables(pool[..], handles[..], history, Registration(irq, routine));
      }
      r := Added;
      var ptr := handleCount;
      handleCount := handleCount + 1;
      if ptr < pool.Length {
        pool[ptr] := pool[ptr].(routine := routine);
        if 0 <= irq {
          pool[ptr] := pool[ptr].(next := handles[irq]);
        }
      } else {
        r := OutsideArray;
      }
      if 0 <= irq {
        handles[irq] := ptr;
      } else {
        r := OutsideArray;
      }
      if r == Added {
        history := history + [Registration(irq, routine)];
      }
    }

    /** The branches on the trap frame's irq; from 1000 up the routines registered for irq - 1000 run, each once,
        newest first. */
    method Dispatch(irq: int) returns (r: DispatchOutcome)
      requires Valid()
      ensures r == Syscall <==> irq == 0x80
      ensures r.Called? <==> 1000 <= irq < 1000 + NR_HARD_INTR
      ensures r.Called? ==> r.routines == Routines(history, |history|, irq - 1000)
    {
      hide Tables, Routines;
      if irq < 0 {
        return Panic;
      } else if irq == 0x80 {
        return Syscall;
      } else if irq < 1000 {
        return Panic;
      }
      var id := irq - 1000;
      if !(id < NR_HARD_INTR) {
        return Panic;
      }
      var calls := CallHandlers(id);
      return Called(calls);
    }

    /** The loop over the list of handlers. */
    method CallHandlers(id: int) returns (calls: seq<Routine>)
      requires Valid() && 0 <= id < NR_HARD_INTR
      ensures calls == Routines(history, |history|, id)
    {
      hide Latest, Routines, Tables;
      TableSizes(pool[..], handles[..], history, id);
      ghost var n := |history|;
      var f := handles[id];
      calls := [];
      while f != NULL
        invariant 0 <= n <= |history| && f == Latest(history, n, id)
        invariant calls + Routines(history, n, id) == Routines(history, |history|, id)
        decreases n
      {
        RoutinesFromLatest(history, n, id);
        TableEntry(pool[..], handles[..], history, f);
        calls := calls + [pool[f].routine];
        n := f;
        f := pool[f].next;
      }
      RoutinesFromLatest(history, n, id);
    }
  }
}
