/** The intrusive doubly linked list over a static pool, with its sentinel-terminated free list.
    A node is known by its index in the pool, and C's null by NULL. */
module LinkList {
  import opened MachineInt
  import opened Letters

  const NULL := -1

  datatype Fly = Fly(letter: Letter, prev: int, next: int)

  type Pool = seq<Fly>

  // ----- What each operation does to the pool

  function SetPrev(m: Pool, p: int, q: int): (r: Pool)
    ensures |r| == |m|
  {
    if 0 <= p < |m| then m[p := m[p].(prev := q)] else m
  }

  function SetNext(m: Pool, p: int, q: int): (r: Pool)
    ensures |r| == |m|
  {
    if 0 <= p < |m| then m[p := m[p].(next := q)] else m
  }

  /** The free list that the first call of _new sets up: every node points to the next, the last to none. */
  function Threaded(m: Pool): (r: Pool)
    ensures |r| == |m|
  {
    seq(|m|, i requires 0 <= i < |m| => if i + 1 < |m| then m[i].(next := i + 1) else m[i])
  }

  function Taken(m: Pool, p: int): Pool
    requires 0 <= p < |m|
  {
    SetPrev(SetNext(m, p, NULL), p, NULL)
  }

  function Inserted(m: Pool, prev: int, next: int, obj: int): Pool {
    SetPrev(SetNext(SetNext(SetPrev(m, obj, prev), obj, next), prev, obj), next, obj)
  }

  function Removed(m: Pool, node: int): Pool
    requires 0 <= node < |m|
  {
    SetPrev(SetNext(m, m[node].prev, m[node].next), m[node].next, m[node].prev)
  }

  function Freed(m: Pool, node: int, freeHead: int): Pool {
    SetNext(m, node, freeHead)
  }

  // ----- The shape of a pool

  ghost predicate Distinct(s: seq<int>) {
    forall i, j | 0 <= i < j < |s| :: s[i] != s[j]
  }

  ghost predicate InPool(m: Pool, s: seq<int>) {
    forall i | 0 <= i < |s| :: 0 <= s[i] < |m|
  }

  ghost predicate Disjoint(s: seq<int>, t: seq<int>) {
    forall i, j | 0 <= i < |s| && 0 <= j < |t| :: s[i] != t[j]
  }

  function At(s: seq<int>, i: int): int {
    if 0 <= i < |s| then s[i] else NULL
  }

  ghost predicate NextLink(m: Pool, s: seq<int>, i: int)
    requires 0 <= i < |s| && 0 <= s[i] < |m|
  {
    m[s[i]].next == At(s, i + 1)
  }

  ghost predicate PrevLink(m: Pool, s: seq<int>, i: int)
    requires 0 <= i < |s| && 0 <= s[i] < |m|
  {
    m[s[i]].prev == At(s, i - 1)
  }

  ghost predicate NextChain(m: Pool, head: int, s: seq<int>) {
    && InPool(m, s)
    && head == At(s, 0)
    && forall i | 0 <= i < |s| :: NextLink(m, s, i)
  }

  ghost predicate PrevChain(m: Pool, s: seq<int>) {
    && InPool(m, s)
    && forall i | 0 <= i < |s| :: PrevLink(m, s, i)
  }

  /** Before the first call of _new both lists are empty and the pool is as the C runtime left it. From then on the
      two lists are acyclic and disjoint, use up the pool, and the free list ends in the last node. */
  ghost predicate Shape(m: Pool, freeHead: int, head: int, live: seq<int>, free: seq<int>) {
    && |m| >= 2 && InPool(m, live)
    && Distinct(live) && Distinct(free) && Disjoint(live, free)
    && NextChain(m, freeHead, free)
    && NextChain(m, head, live) && PrevChain(m, live)
    && if freeHead == NULL then live == [] && m[|m| - 1].next == NULL
       else |live| + |free| == |m| && free[|free| - 1] == |m| - 1
  }

  function Contents(m: Pool, live: seq<int>): (r: seq<Letter>)
    requires InPool(m, live)
    ensures |r| == |live|
  {
    seq(|live|, i requires 0 <= i < |live| => m[live[i]].letter)
  }

  // ----- What the shape implies

  function Below(n: nat): (r: set<int>)
    ensures |r| == n && forall k :: k in r <==> 0 <= k < n
  {
    if n == 0 then {} else Below(n - 1) + {n - 1}
  }

  /** Distinct indices below n of full number are all of them: peel off the last of s. */
  lemma {:induction false} Pigeonhole(s: seq<int>, all: set<int>)
    requires Distinct(s) && (forall i | 0 <= i < |s| :: s[i] in all) && |s| == |all|
    ensures forall p | p in all :: p in s
  {
    if s != [] {
      var front, rest := s[..|s| - 1], all - {s[|s| - 1]};
      Pigeonhole(front, rest);
      assert forall p | p in all :: p in rest || p == s[|s| - 1];
      assert forall p | p in rest :: p in front;
      assert s == front + [s[|s| - 1]];
    }
  }

  /** Once set up, every node of the pool is on exactly one of the two lists, and the sentinel is never live. */
  lemma EveryNodeOnOneList(m: Pool, freeHead: int, head: int, live: seq<int>, free: seq<int>, p: int)
    requires Shape(m, freeHead, head, live, free) && freeHead != NULL && 0 <= p < |m|
    ensures p in live <==> p !in free
    ensures |m| - 1 !in live
  {
    Pigeonhole(live + free, Below(|m|));
    assert p in live + free;
    assert free[|free| - 1] in free;
  }

  /** The exhaustion test of _new is exact: the first free node has no successor when all others are live. */
  lemma ExhaustedWhenFull(m: Pool, freeHead: int, head: int, live: seq<int>, free: seq<int>)
    requires Shape(m, freeHead, head, live, free) && freeHead != NULL
    ensures 0 <= freeHead < |m|
    ensures m[freeHead].next == NULL <==> |live| == |m| - 1
  {
    assert NextLink(m, free, 0);
  }

  // ----- What each operation does to the shape

  function Counting(n: nat): (s: seq<int>)
    ensures |s| == n && forall i | 0 <= i < n :: s[i] == i
  {
    seq(n, i => i)
  }

  lemma ThreadingGivesShape(m: Pool, head: int)
    requires Shape(m, NULL, head, [], [])
    ensures Shape(Threaded(m), 0, NULL, [], Counting(|m|))
  {
  }

  /** The fields after _new and, if there is a head, _insert before it. */
  lemma TakenFields(m: Pool, node: int, head: int)
    requires 0 <= node < |m| && node != head
    ensures var taken := Taken(m, node);
            var m' := if head == NULL then taken else Inserted(taken, NULL, head, node);
            && |m'| == |m|
            && m'[node] == Fly(m[node].letter, NULL, head)
            && forall p | 0 <= p < |m| && p != node :: m'[p] == if p == head then m[p].(prev := node) else m[p]
  {
  }

  /** Moving the first free node to the front of the live list keeps all nodes apart. */
  lemma FrontsMoved(live: seq<int>, free: seq<int>)
    requires Distinct(live) && Distinct(free) && Disjoint(live, free) && free != []
    ensures Distinct([free[0]] + live) && Distinct(free[1..]) && Disjoint([free[0]] + live, free[1..])
  {
  }

  lemma ChainNext(m: Pool, head: int, s: seq<int>, i: nat)
    requires NextChain(m, head, s) && i < |s|
    ensures m[s[i]].next == At(s, i + 1)
  {
    assert NextLink(m, s, i);
  }

  lemma ChainKept(m: Pool, m': Pool, head: int, s: seq<int>)
    requires NextChain(m, head, s) && |m'| == |m|
    requires forall i | 0 <= i < |s| :: m'[s[i]].next == m[s[i]].next
    ensures NextChain(m', head, s)
  {
    forall i | 0 <= i < |s|
      ensures NextLink(m', s, i)
    {
      assert NextLink(m, s, i);
    }
  }

  lemma ChainTail(m: Pool, head: int, s: seq<int>)
    requires NextChain(m, head, s) && s != []
    ensures NextChain(m, m[head].next, s[1..])
  {
    var t := s[1..];
    forall i | 0 <= i < |t|
      ensures NextLink(m, t, i)
    {
      assert t[i] == s[i + 1] && NextLink(m, s, i + 1);
    }
    assert NextLink(m, s, 0);
  }

  lemma ChainPushed(m: Pool, head: int, s: seq<int>, node: int)
    requires NextChain(m, head, s) && 0 <= node < |m| && m[node].next == head
    ensures NextChain(m, node, [node] + s)
  {
    var t := [node] + s;
    forall i | 1 <= i < |t|
      ensures NextLink(m, t, i)
    {
      assert t[i] == s[i - 1] && NextLink(m, s, i - 1);
    }
    assert NextLink(m, t, 0);
  }

  lemma PrevPushed(m: Pool, m': Pool, s: seq<int>, node: int)
    requires PrevChain(m, s) && |m'| == |m| && 0 <= node < |m| && m'[node].prev == NULL
    requires forall i | 0 <= i < |s| :: m'[s[i]].prev == if i == 0 then node else m[s[i]].prev
    ensures PrevChain(m', [node] + s)
  {
    var t := [node] + s;
    forall i | 1 <= i < |t|
      ensures PrevLink(m', t, i)
    {
      assert t[i] == s[i - 1] && PrevLink(m, s, i - 1);
    }
    assert PrevLink(m', t, 0);
  }

  /** _new followed by putting the node in front of the live list. */
  lemma TakingKeepsShape(m: Pool, freeHead: int, head: int, live: seq<int>, free: seq<int>)
    requires Shape(m, freeHead, head, live, free) && 0 <= freeHead < |m| && m[freeHead].next != NULL
    ensures var taken := Taken(m, freeHead);
            var m' := if head == NULL then taken else Inserted(taken, NULL, head, freeHead);
            Shape(m', m[freeHead].next, freeHead, [freeHead] + live, free[1..])
  {
    hide NextLink, PrevLink, Taken, Inserted;
    assert At(free, 1) == m[free[0]].next by {
      ChainNext(m, freeHead, free, 0);
    }
    assert freeHead != head by {
      assert live != [] ==> live[0] != free[0];
    }
    var taken := Taken(m, freeHead);
    var m' := if head == NULL then taken else Inserted(taken, NULL, head, freeHead);
    FrontsMoved(live, free);
    TakenFields(m, freeHead, head);
    ChainTail(m, freeHead, free);
    assert forall i | 0 <= i < |free[1..]| :: free[1..][i] == free[i + 1] != free[0];
    assert forall i | 0 <= i < |live| :: live[i] != free[0];
    ChainKept(m, m', m[freeHead].next, free[1..]);
    ChainKept(m, m', head, live);
    ChainPushed(m', head, live, freeHead);
    PrevPushed(m, m', live, freeHead);
  }

  lemma TakingKeepsContents(m: Pool, freeHead: int, head: int, live: seq<int>)
    requires 0 <= freeHead < |m| && freeHead != head && InPool(m, live)
    requires forall i | 0 <= i < |live| :: live[i] != freeHead
    ensures var taken := Taken(m, freeHead);
            var m' := if head == NULL then taken else Inserted(taken, NULL, head, freeHead);
            InPool(m', [freeHead] + live) && Contents(m', [freeHead] + live) == [m[freeHead].letter] + Contents(m, live)
  {
    TakenFields(m, freeHead, head);
  }

  /** The fields after _remove and _free. */
  lemma RemovedFields(m: Pool, node: int, freeHead: int)
    requires 0 <= node < |m| && m[node].prev != node && m[node].next != node
    ensures var m' := Freed(Removed(m, node), node, freeHead);
            && |m'| == |m|
            && m'[node] == m[node].(next := freeHead)
            && forall p | 0 <= p < |m| && p != node ::
                 m'[p] == Fly(m[p].letter, if p == m[node].next then m[node].prev else m[p].prev,
                              if p == m[node].prev then m[node].next else m[p].next)
  {
  }

  /** Moving the k-th live node to the front of the free list keeps all nodes apart. */
  lemma NodeMoved(live: seq<int>, free: seq<int>, k: nat)
    requires Distinct(live) && Distinct(free) && Disjoint(live, free) && k < |live|
    ensures Distinct(Without(live, k)) && Distinct([live[k]] + free) && Disjoint(Without(live, k), [live[k]] + free)
  {
    var live' := Without(live, k);
    assert forall i | 0 <= i < |live'| :: live'[i] == live[if i < k then i else i + 1];
  }

  lemma ShapeBounds(m: Pool, freeHead: int, head: int, live: seq<int>, free: seq<int>)
    requires Shape(m, freeHead, head, live, free)
    ensures -1 <= freeHead < |m| && -1 <= head < |m| && head == At(live, 0)
    ensures head == NULL <==> live == []
  {
  }

  /** A walk that has reached NULL is at the end. */
  lemma AtNull(m: Pool, s: seq<int>, j: int)
    requires InPool(m, s) && -1 <= j <= |s| && At(s, j) == NULL
    ensures j == -1 || j == |s|
  {
  }

  lemma AtDistinct(s: seq<int>, j: nat, t: int)
    requires Distinct(s) && j < |s| && s[j] >= 0
    ensures s[j] == At(s, t) <==> j == t
  {
  }

  /** Neighbours in the shortened sequence are the old ones, except that the gap at k is closed. */
  lemma AtWithout(s: seq<int>, k: nat, i: nat)
    requires k < |s| && i < |s| - 1
    ensures var j := if i < k then i else i + 1;
            && Without(s, k)[i] == s[j]
            && At(Without(s, k), i + 1) == At(s, if j + 1 == k then k + 1 else j + 1)
            && At(Without(s, k), i - 1) == At(s, if j - 1 == k then k - 1 else j - 1)
  {
  }

  lemma LiveChainsWithout(m: Pool, m': Pool, head: int, live: seq<int>, k: nat)
    requires Distinct(live) && NextChain(m, head, live) && PrevChain(m, live) && k < |live| && |m'| == |m|
    requires forall p | 0 <= p < |m| && p != live[k] ::
               && m'[p].prev == (if p == m[live[k]].next then m[live[k]].prev else m[p].prev)
               && m'[p].next == (if p == m[live[k]].prev then m[live[k]].next else m[p].next)
    ensures NextChain(m', At(Without(live, k), 0), Without(live, k)) && PrevChain(m', Without(live, k))
  {
    var live' := Without(live, k);
    assert NextLink(m, live, k) && PrevLink(m, live, k);
    forall i | 0 <= i < |live'|
      ensures 0 <= live'[i] < |m| && NextLink(m', live', i) && PrevLink(m', live', i)
    {
      var j := if i < k then i else i + 1;
      AtWithout(live, k, i);
      assert NextLink(m, live, j) && PrevLink(m, live, j);
      AtDistinct(live, j, k);
      AtDistinct(live, j, k - 1);
      AtDistinct(live, j, k + 1);
    }
  }

  /** _remove and _free of the k-th live node, with the head moved on if it was the first. */
  lemma RemovingKeepsShape(m: Pool, freeHead: int, head: int, live: seq<int>, free: seq<int>, k: nat)
    requires Shape(m, freeHead, head, live, free) && k < |live|
    ensures var node := live[k];
            var m' := Freed(Removed(m, node), node, freeHead);
            && Shape(m', node, if node == head then m[node].next else head, Without(live, k), [node] + free)
            && forall p | 0 <= p < |m| :: m'[p].letter == m[p].letter
  {
    var node := live[k];
    var m' := Freed(Removed(m, node), node, freeHead);
    assert NextLink(m, live, k) && PrevLink(m, live, k);
    AtDistinct(live, k, k + 1);
    AtDistinct(live, k, k - 1);
    AtDistinct(live, k, 0);
    RemovedFields(m, node, freeHead);
    NodeMoved(live, free, k);
    LiveChainsWithout(m, m', head, live, k);
    assert forall i | 0 <= i < |free| :: free[i] != node && free[i] != m[node].prev;
    ChainKept(m, m', freeHead, free);
    ChainPushed(m', freeHead, free, node);
  }

  lemma NeighboursInPool(m: Pool, freeHead: int, head: int, live: seq<int>, free: seq<int>, k: nat)
    requires Shape(m, freeHead, head, live, free) && k < |live|
    ensures -1 <= m[live[k]].prev < |m| && -1 <= m[live[k]].next < |m|
    ensures m[live[k]].next == At(live, k + 1)
  {
    assert NextLink(m, live, k) && PrevLink(m, live, k);
  }

  lemma RemovingKeepsContents(m: Pool, m': Pool, live: seq<int>, k: nat)
    requires InPool(m, live) && k < |live| && |m'| == |m|
    requires forall p | 0 <= p < |m| :: m'[p].letter == m[p].letter
    ensures InPool(m', Without(live, k)) && Contents(m', Without(live, k)) == Without(Contents(m, live), k)
  {
  }

  /** Changing only the letter of a node keeps the shape. */
  lemma LetterStoreKeepsShape(m: Pool, freeHead: int, head: int, live: seq<int>, free: seq<int>, k: nat, l: Letter)
    requires Shape(m, freeHead, head, live, free) && k < |live|
    ensures var m' := m[live[k] := m[live[k]].(letter := l)];
            && Shape(m', freeHead, head, live, free)
            && Contents(m', live) == Contents(m, live)[k := l]
  {
    var m' := m[live[k] := m[live[k]].(letter := l)];
    ChainKept(m, m', freeHead, free);
    ChainKept(m, m', head, live);
    forall i | 0 <= i < |live|
      ensures PrevLink(m', live, i)
    {
      assert PrevLink(m, live, i);
    }
  }

  /** The fields after _insert of obj between prev and next. */
  lemma InsertedFields(m: Pool, prev: int, next: int, obj: int)
    requires 0 <= obj < |m| && obj != prev && obj != next
    ensures var m' := Inserted(m, prev, next, obj);
            && |m'| == |m|
            && m'[obj] == Fly(m[obj].letter, prev, next)
            && forall p | 0 <= p < |m| && p != obj ::
                 m'[p] == Fly(m[p].letter, if p == next then obj else m[p].prev, if p == prev then obj else m[p].next)
  {
  }

  function With(s: seq<int>, k: nat, x: int): (r: seq<int>)
    requires k <= |s|
    ensures |r| == |s| + 1
  {
    s[..k] + [x] + s[k..]
  }

  lemma AtWith(s: seq<int>, k: nat, x: int, i: int)
    requires k <= |s| && 0 <= i < |s|
    ensures var j := if i < k then i else i + 1;
            && With(s, k, x)[j] == s[i]
            && At(With(s, k, x), j + 1) == (if i + 1 == k then x else At(s, i + 1))
            && At(With(s, k, x), j - 1) == (if i == k then x else At(s, i - 1))
    ensures With(s, k, x)[k] == x
    ensures At(With(s, k, x), k + 1) == At(s, k) && At(With(s, k, x), k - 1) == At(s, k - 1)
  {
  }

  /** _insert of a node between the k-th and the one before it, at either end or anywhere inside, puts it there in both
      chains. */
  lemma InsertingLinks(m: Pool, head: int, live: seq<int>, k: nat, node: int)
    requires Distinct(live) && NextChain(m, head, live) && PrevChain(m, live) && k <= |live|
    requires 0 <= node < |m| && forall i | 0 <= i < |live| :: live[i] != node
    ensures var m' := Inserted(m, At(live, k - 1), At(live, k), node);
            && |m'| == |m| && NextChain(m', At(With(live, k, node), 0), With(live, k, node))
            && PrevChain(m', With(live, k, node))
            && forall p | 0 <= p < |m| :: m'[p].letter == m[p].letter
  {
    hide Inserted;
    var prev, next, live' := At(live, k - 1), At(live, k), With(live, k, node);
    InsertedFields(m, prev, next, node);
    var m' := Inserted(m, prev, next, node);
    forall j | 0 <= j < |live'|
      ensures 0 <= live'[j] < |m| && NextLink(m', live', j) && PrevLink(m', live', j)
    {
      if j != k {
        var i := if j < k then j else j - 1;
        AtWith(live, k, node, i);
        assert NextLink(m, live, i) && PrevLink(m, live, i);
        AtDistinct(live, i, k);
        AtDistinct(live, i, k - 1);
      }
    }
  }

  // ----- The operations themselves

  /** The pool and free head that _new works on: its first call threads the free list. */
  function Ready(m: Pool, freeHead: int): (Pool, int) {
    if freeHead == NULL then (Threaded(m), 0) else (m, freeHead)
  }

  /** The free list as _new finds it once it is threaded. */
  ghost function ReadyFree(m: Pool, freeHead: int, free: seq<int>): seq<int> {
    if freeHead == NULL then Counting(|m|) else free
  }

  lemma ReadyKeepsShape(m: Pool, freeHead: int, head: int, live: seq<int>, free: seq<int>)
    requires Shape(m, freeHead, head, live, free)
    ensures var (m', first) := Ready(m, freeHead);
            && 0 <= first < |m'| && |m'| == |m|
            && Shape(m', first, head, live, ReadyFree(m, freeHead, free))
            && Contents(m', live) == Contents(m, live)
            && (m'[first].next == NULL <==> |live| == |m| - 1)
  {
    if freeHead == NULL {
      ThreadingGivesShape(m, head);
      ExhaustedWhenFull(Threaded(m), 0, NULL, [], Counting(|m|));
    } else {
      ExhaustedWhenFull(m, freeHead, head, live, free);
    }
  }

  /** The pool after _new and the insertion at the head, as create_new_letter combines them. */
  function Added(m: Pool, first: int, head: int): Pool
    requires 0 <= first < |m|
  {
    if head == NULL then Taken(m, first) else Inserted(Taken(m, first), NULL, head, first)
  }

  lemma AddingKeepsShape(m: Pool, first: int, head: int, live: seq<int>, free: seq<int>)
    requires Shape(m, first, head, live, free) && 0 <= first < |m| && m[first].next != NULL
    ensures Shape(Added(m, first, head), m[first].next, first, [first] + live, free[1..])
    ensures Contents(Added(m, first, head), [first] + live)[1..] == Contents(m, live)
  {
    TakingKeepsShape(m, first, head, live, free);
    assert first == free[0];
    assert forall i | 0 <= i < |live| :: live[i] != free[0];
    TakingKeepsContents(m, first, head, live);
  }

  class FlyPool {
    const pool: array<Fly>
    var freeHead: int

    /** The C runtime's zeroed static storage: all links are null. */
    constructor (size: nat, zero: Letter)
      ensures pool.Length == size + 1 && fresh(pool) && freeHead == NULL
      ensures forall i | 0 <= i <= size :: pool[i] == Fly(zero, NULL, NULL)
    {
      pool := new Fly[size + 1](i => Fly(zero, NULL, NULL));
      freeHead := NULL;
    }

    /** None is the failure of the assertion that a free node other than the sentinel is left. */
    method New() returns (ret: Option<int>)
      requires pool.Length >= 2 && (freeHead == NULL || 0 <= freeHead < pool.Length)
      modifies this`freeHead, pool
      ensures var (m, first) := Ready(old(pool[..]), old(freeHead));
              if m[first].next == NULL then ret == None && pool[..] == m && freeHead == old(freeHead)
              else ret == Some(first) && freeHead == m[first].next && pool[..] == Taken(m, first)
    {
      var first := freeHead;
      if first == NULL {
        var i := 1;
        while i < pool.Length
          invariant 1 <= i <= pool.Length
          invariant forall k | 0 <= k < i - 1 :: pool[k] == old(pool[k]).(next := k + 1)
          invariant forall k | i - 1 <= k < pool.Length :: pool[k] == old(pool[k])
        {
          pool[i - 1] := pool[i - 1].(next := i);
          i := i + 1;
        }
        first := 0;
        assert pool[..] == Threaded(old(pool[..]));
      }
      if !(pool[first].next != NULL) {
        return None;
      }
      freeHead := pool[first].next;
      pool[first] := pool[first].(next := NULL);
      pool[first] := pool[first].(prev := NULL);
      return Some(first);
    }

    method Insert(prev: int, next: int, obj: int)
      requires 0 <= obj < pool.Length
      requires -1 <= prev < pool.Length && -1 <= next < pool.Length && (prev != NULL || next != NULL)
      modifies pool
      ensures pool[..] == Inserted(old(pool[..]), prev, next, obj)
    {
      pool[obj] := pool[obj].(prev := prev);
      pool[obj] := pool[obj].(next := next);
      if prev != NULL {
        pool[prev] := pool[prev].(next := obj);
      }
      if next != NULL {
        pool[next] := pool[next].(prev := obj);
      }
    }

    method Remove(node: int)
      requires 0 <= node < pool.Length
      requires -1 <= pool[node].prev < pool.Length && -1 <= pool[node].next < pool.Length
      modifies pool
      ensures pool[..] == Removed(old(pool[..]), node)
    {
      var prev, next := pool[node].prev, pool[node].next;
      if prev != NULL {
        pool[prev] := pool[prev].(next := next);
      }
      if next != NULL {
        pool[next] := pool[next].(prev := prev);
      }
    }

    method Free(node: int)
      requires 0 <= node < pool.Length
      modifies this`freeHead, pool
      ensures pool[..] == Freed(old(pool[..]), node, old(freeHead)) && freeHead == node
    {
      pool[node] := pool[node].(next := freeHead);
      freeHead := node;
    }
  }
}
