/** The typing game's letters: creation, the update that frees nodes as it walks, and the key-press scan. */
module Effect {
  import opened MachineInt
  import opened Letters
  import opened Keyboard
  import opened LinkList
  import opened Strikes

  class Board {
    const flies: FlyPool
    const keys: KeyState
    var head: int
    var hit: nat
    var miss: nat
    /** The processor's interrupt flag, which update_keypress clears and sets. */
    var interruptsOn: bool
    ghost var live: seq<int>
    ghost var free: seq<int>

    ghost predicate Valid()
      reads this, flies, flies.pool, keys, keys.pressed
    {
      && Shape(flies.pool[..], flies.freeHead, head, live, free)
      && keys.Valid()
      && AllInPlay(Contents(flies.pool[..], live))
    }

    /** The letters on the screen, newest first. */
    ghost function Screen(): seq<Letter>
      reads this, flies, flies.pool, keys, keys.pressed
      requires Valid()
    {
      Contents(flies.pool[..], live)
    }

    constructor (size: nat)
      requires size >= 1
      ensures Valid() && Screen() == [] && flies.pool.Length == size + 1
      ensures hit == 0 && miss == 0 && interruptsOn && keys.pressed[..] == NoKeys()
      ensures fresh(flies) && fresh(flies.pool) && fresh(keys) && fresh(keys.pressed)
    {
      flies := new FlyPool(size, Letter(0, 0, 0, 0));
      keys := new KeyState();
      head := NULL;
      hit, miss := 0, 0;
      interruptsOn := true;
      live, free := [], [];
    }

    /** A node from the pool, put in front of the list; there is none exactly when all but the sentinel are live. */
    method AddNode() returns (node: Option<int>)
      requires Valid()
      modifies this`head, this`live, this`free, flies`freeHead, flies.pool
      ensures node == None <==> old(|live|) == flies.pool.Length - 1
      ensures node.Some? ==>
                && Shape(flies.pool[..], flies.freeHead, head, live, free)
                && node.value == head && 0 <= head < flies.pool.Length && live == [head] + old(live)
                && Contents(flies.pool[..], live)[1..] == old(Screen())
    {
      hide Distinct, Disjoint, NextChain, PrevChain, AllInPlay;
      ghost var (m, first) := Ready(flies.pool[..], flies.freeHead);
      ShapeBounds(flies.pool[..], flies.freeHead, head, live, free);
      ReadyKeepsShape(flies.pool[..], flies.freeHead, head, live, free);
      free := ReadyFree(flies.pool[..], flies.freeHead, free);
      node := flies.New();
      if node == None {
        return;
      }
      AddingKeepsShape(m, first, head, live, free);
      var now := node.value;
      if head == NULL {
        head := now;
      } else {
        flies.Insert(NULL, head, now);
        head := now;
      }
      assert flies.pool[..] == Added(m, first, old(head));
      live, free := [now] + live, free[1..];
    }

    /** ry, rv and rt are the three results of rand(). The call panics exactly when every node but the sentinel is in
        use; otherwise the new letter comes first and its key is released. */
    method CreateNewLetter(ry: nat, rv: nat, rt: nat) returns (ok: bool)
      requires Valid()
      modifies this`head, this`live, this`free, flies`freeHead, flies.pool, keys.pressed
      ensures ok <==> |old(Screen())| < flies.pool.Length - 1
      ensures ok ==> Valid() && Screen() == [NewLetter(ry, rv, rt)] + old(Screen())
      ensures ok ==> keys.pressed[..] == old(keys.pressed[..])[rt % NR_KEYS := false]
      ensures ok ==> Screen()[0].text == rt % NR_KEYS
    {
      hide Shape, NewSpeed;
      ghost var others := Screen();
      var node := AddNode();
      if node == None {
        return false;
      }
      ghost var linked, letter := flies.pool[..], NewLetter(ry, rv, rt);
      var p := flies.pool;
      p[head] := p[head].(letter := p[head].letter.(x := 0));
      p[head] := p[head].(letter := p[head].letter.(y := ry % (SCR_WIDTH / 8 - 2) * 8 + 8));
      p[head] := p[head].(letter := p[head].letter.(v := NewSpeed(rv)));
      p[head] := p[head].(letter := p[head].letter.(text := rt % NR_KEYS));
      assert p[head] == linked[head].(letter := letter);
      assert flies.pool[..] == linked[live[0] := linked[live[0]].(letter := letter)];
      LetterStoreKeepsShape(linked, flies.freeHead, head, live, free, 0, letter);
      NewLetterInPlay(ry, rv, rt);
      assert Contents(flies.pool[..], live) == [letter] + others;
      keys.ReleaseKey(rt % NR_KEYS);
      ok := true;
    }

    /** _remove and _free of the k-th letter, and the head moved on if it was the first. */
    method Drop(it: int, next: int, ghost k: nat)
      requires Shape(flies.pool[..], flies.freeHead, head, live, free)
      requires k < |live| && live[k] == it && flies.pool[it].next == next
      modifies this`head, this`live, this`free, flies`freeHead, flies.pool
      ensures Shape(flies.pool[..], flies.freeHead, head, live, free)
      ensures live == Without(old(live), k)
      ensures Contents(flies.pool[..], live) == Without(old(Contents(flies.pool[..], live)), k)
    {
      ghost var m := flies.pool[..];
      RemovingKeepsShape(m, flies.freeHead, head, live, free, k);
      RemovingKeepsContents(m, Freed(Removed(m, it), it, flies.freeHead), live, k);
      NeighboursInPool(m, flies.freeHead, head, live, free, k);
      flies.Remove(it);
      flies.Free(it);
      if it == head {
        head := next;
      }
      live, free := Without(live, k), [it] + free;
    }

    /** x += v for the k-th letter, which may leave it off the screen. */
    method MoveLetter(it: int, ghost k: nat)
      requires Shape(flies.pool[..], flies.freeHead, head, live, free)
      requires k < |live| && live[k] == it && InPlay(flies.pool[it].letter)
      modifies flies.pool
      ensures Shape(flies.pool[..], flies.freeHead, head, live, free)
      ensures flies.pool[it] == old(flies.pool[it]).(letter := Move(old(flies.pool[it].letter)))
      ensures Contents(flies.pool[..], live) ==
              old(Contents(flies.pool[..], live))[k := Move(old(flies.pool[it].letter))]
    {
      var p := flies.pool;
      LetterStoreKeepsShape(p[..], flies.freeHead, head, live, free, k, Move(p[it].letter));
      p[it] := p[it].(letter := p[it].letter.(x := p[it].letter.x + p[it].letter.v));
    }

    /** The walk over the letters s stands at the j-th of them. */
    ghost predicate Walking(s: seq<Letter>, j: nat, it: int)
      reads this, flies, flies.pool
    {
      && AllInPlay(s) && j <= |s|
      && Shape(flies.pool[..], flies.freeHead, head, live, free)
      && Contents(flies.pool[..], live) == Halfway(s, j)
      && it == At(live, |Advance(s[..j])|)
    }

    method Visit(it: int, ghost s: seq<Letter>, ghost j: nat) returns (next: int)
      requires Walking(s, j, it) && it != NULL
      modifies this`head, this`hit, this`miss, this`live, this`free, flies`freeHead, flies.pool
      ensures j < |s| && Walking(s, j + 1, next)
      ensures hit == old(hit) + Hits(s[..j + 1]) - Hits(s[..j])
      ensures miss == old(miss) + Misses(s[..j + 1]) - Misses(s[..j])
    {
      hide Distinct, Disjoint, PrevChain, Advance;
      ghost var k := |Advance(s[..j])|;
      WalkStep(s, j);
      next := flies.pool[it].next;
      NeighboursInPool(flies.pool[..], flies.freeHead, head, live, free, k);
      assert flies.pool[it].letter == Halfway(s, j)[k];
      MoveLetter(it, k);
      var x := flies.pool[it].letter.x;
      if x < 0 || x + GLYPH > BOTTOM {
        if x < 0 {
          hit := hit + 1;
        } else {
          miss := miss + 1;
        }
        Drop(it, next, k);
      }
    }

    /** Every letter live at entry is moved once; those off the screen are counted and freed, the others stay in
        order. */
    method UpdateLetterPos()
      requires Valid()
      modifies this`head, this`hit, this`miss, this`live, this`free, flies`freeHead, flies.pool
      ensures Valid() && Screen() == Advance(old(Screen()))
      ensures hit == old(hit) + Hits(old(Screen())) && miss == old(miss) + Misses(old(Screen()))
    {
      hide Distinct, Disjoint, PrevChain, Advance, Hits, Misses;
      ghost var s := Screen();
      ghost var j := 0;
      WalkStarts(s);
      ShapeBounds(flies.pool[..], flies.freeHead, head, live, free);
      var it := head;
      while it != NULL
        invariant Walking(s, j, it)
        invariant hit == old(hit) + Hits(s[..j]) && miss == old(miss) + Misses(s[..j])
        decreases |s| - j
      {
        it := Visit(it, s, j);
        j := j + 1;
      }
      WalkEnds(s, j);
      AdvanceConserves(s);
    }

    lemma WalkEnds(s: seq<Letter>, j: nat)
      requires Walking(s, j, NULL)
      ensures j == |s| && s[..j] == s && Contents(flies.pool[..], live) == Advance(s)
    {
      AtNull(flies.pool[..], live, |Advance(s[..j])|);
    }

    /** The scan for the lowest falling letter whose key is down; both assertions on text hold. */
    method FindTarget() returns (target: int)
      requires Valid()
      ensures target == At(live, Target(Screen(), keys.pressed[..]))
    {
      hide Distinct, Disjoint, PrevChain;
      ghost var s, j := Screen(), 0;
      var p := flies.pool;
      var it, min := head, ABOVE_ALL;
      ghost var t := -1;
      target := NULL;
      while it != NULL
        invariant j <= |s| && it == At(live, j)
        invariant t == Target(s[..j], keys.pressed[..]) && target == At(live, t)
        invariant min == if t == -1 then ABOVE_ALL else s[t].x
        decreases |s| - j
      {
        assert s[j] == p[it].letter && InPlay(s[j]);
        assert NextLink(p[..], live, j);
        assert s[..j + 1][..j] == s[..j];
        var l := p[it].letter;
        if l.v > 0 && l.x > min {
          var down := keys.QueryKey(l.text);
          if down {
            min, target := l.x, it;
            t := j;
          }
        }
        it := p[it].next;
        j := j + 1;
      }
      AtNull(p[..], live, j);
      assert s[..|s|] == s;
    }

    /** With interrupts off, the target is turned round and its key released; interrupts stay off until none is left. */
    method UpdateKeypress() returns (more: bool)
      requires Valid()
      modifies this`interruptsOn, flies.pool, keys.pressed
      ensures Valid() && interruptsOn == !more
      ensures var t := Target(old(Screen()), old(keys.pressed[..]));
              && more == (t != -1)
              && (t == -1 ==> Screen() == old(Screen()) && keys.pressed[..] == old(keys.pressed[..]))
              && (t != -1 ==>
                    && Screen() == StrikeAt(old(Screen()), t)
                    && keys.pressed[..] == old(keys.pressed[..])[old(Screen())[t].text := false])
    {
      ghost var s := Screen();
      interruptsOn := false;
      var target := FindTarget();
      ghost var t := Target(s, keys.pressed[..]);
      TargetIsLowest(s, keys.pressed[..]);
      if target != NULL {
        assert s[t] == flies.pool[target].letter;
        keys.ReleaseKey(flies.pool[target].letter.text);
        LetterStoreKeepsShape(flies.pool[..], flies.freeHead, head, live, free, t, StrikeLetter(s[t]));
        StrikeNeverProlongs(s[t]);
        flies.pool[target] := flies.pool[target].(letter := flies.pool[target].letter.(v := STRUCK_SPEED));
        return true;
      }
      AtNull(flies.pool[..], live, t);
      interruptsOn := true;
      return false;
    }

    /** `while (update_keypress());` ends, since each round turns one falling letter round. */
    method DrainKeypresses()
      requires Valid()
      modifies this`interruptsOn, flies.pool, keys.pressed
      ensures Valid() && interruptsOn
      ensures (Screen(), keys.pressed[..]) == Drained(old(Screen()), old(keys.pressed[..]))
    {
      var more := true;
      while more
        invariant Valid()
        invariant Drained(Screen(), keys.pressed[..]) == Drained(old(Screen()), old(keys.pressed[..]))
        invariant !more ==> interruptsOn && Target(Screen(), keys.pressed[..]) == -1
        decreases more, Falling(Screen())
      {
        ghost var s := Screen();
        if Target(s, keys.pressed[..]) != -1 {
          TargetFalls(s, keys.pressed[..]);
        }
        more := UpdateKeypress();
      }
    }
  }
}
