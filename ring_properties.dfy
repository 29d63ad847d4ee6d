/** What the operations of RingState promise across many steps: the producer
    never overwrites an item a consumer has yet to read, each consumer sees the
    pushed items in order, the converged tail is the slowest consumer, and bulk
    and single pulls agree. */
module RingProperties {
  import opened RingState

  // ---------------------------------------------------------------------------
  // Forward distance between slot indices. `Distance(size, b, a)` is how many
  // steps of `Next` lead from slot `a` to slot `b`.
  // ---------------------------------------------------------------------------

  /** Walking from `a` to `b` and on to `c` without a full lap is walking from `a` to `c`. */
  lemma DistanceAdd(size: nat, a: nat, b: nat, c: nat)
    requires a < size && b < size && c < size
    requires Distance(size, b, a) + Distance(size, c, b) < size
    ensures Distance(size, c, a) == Distance(size, b, a) + Distance(size, c, b)
  {
  }

  /** A slot passed on the way from `a` to `c` splits that walk in two. */
  lemma DistanceSplit(size: nat, a: nat, b: nat, c: nat)
    requires a < size && b < size && c < size
    requires Distance(size, b, a) <= Distance(size, c, a)
    ensures Distance(size, c, b) == Distance(size, c, a) - Distance(size, b, a)
  {
  }

  /** Two slots at the same distance from `a` are the same slot. */
  lemma DistanceInjective(size: nat, a: nat, b: nat, c: nat)
    requires a < size && b < size && c < size
    requires Distance(size, b, a) == Distance(size, c, a)
    ensures b == c
  {
  }

  /** Advancing the target by one slot, short of a full lap, adds one step. */
  lemma DistanceAfterNext(size: nat, b: nat, a: nat)
    requires size >= 1 && a < size && b < size
    requires Next(size, b) != a
    ensures Distance(size, Next(size, b), a) == Distance(size, b, a) + 1
  {
  }

  /** Going `j` steps forward from `c` lands on `(c + j) % size`. */
  lemma ForwardAt(size: nat, c: nat, j: nat)
    requires c < size && j < size
    ensures (c + j) % size < size
    ensures Distance(size, (c + j) % size, c) == j
  {
    ModPlus(c + j, size);
  }

  /** The slot `Distance(size, h, c)` steps after `c` is `h`. */
  lemma LandsOn(size: nat, c: nat, h: nat)
    requires c < size && h < size
    ensures (c + Distance(size, h, c)) % size == h
  {
    ModPlus(c + Distance(size, h, c), size);
  }

  /** Reducing a cursor modulo the capacity before stepping on changes no slot. */
  lemma ModShift(size: nat, x: nat, y: nat, j: nat)
    requires size >= 1 && x + j < 2 * size && y == x % size
    ensures (y + j) % size == (x + j) % size
  {
    ModPlus(x, size);
    ModPlus(y + j, size);
    ModPlus(x + j, size);
  }

  // ---------------------------------------------------------------------------
  // The window invariant and each consumer's pending items
  // ---------------------------------------------------------------------------

  /** A consumer cursor lies on the way from the converged tail to `head`. */
  predicate InWindow<T>(s: Snapshot<T>, cursor: nat) {
    cursor < s.size && Distance(s.size, cursor, s.tail) <= Distance(s.size, s.head, s.tail)
  }

  /** The invariant of every state reached without `pullTail` carrying a cursor
      to `size` or beyond: every cursor lies in the window, and during the first
      lap the window does not wrap. */
  predicate Coherent<T>(s: Snapshot<T>) {
    && s.Valid()
    && (|s.buffer| < s.size ==> s.tail <= s.head)
    && forall k :: k in s.tails ==> InWindow(s, s.tails[k])
  }

  /** What a coherent state says about one consumer's cursor. */
  lemma CursorFacts<T>(s: Snapshot<T>, key: nat)
    requires Coherent(s) && key in s.tails
    ensures s.tails[key] < s.size
    ensures 0 <= Distance(s.size, s.head, s.tails[key]) <= Distance(s.size, s.head, s.tail)
    ensures |s.buffer| < s.size ==> s.tail <= s.tails[key] <= s.head
    ensures Readable(s.size, s.buffer, s.tails[key], s.tails[key] + Distance(s.size, s.head, s.tails[key]))
  {
    var c := s.tails[key];
    DistanceSplit(s.size, s.tail, c, s.head);
    var d := Distance(s.size, s.head, c);
    forall i | c <= i < c + d
      ensures i % s.size < |s.buffer|
    {
      ModPlus(i, s.size);
    }
  }

  /** The items consumer `key` has yet to read, oldest first. */
  ghost function Pending<T>(s: Snapshot<T>, key: nat): seq<T>
    requires Coherent(s) && key in s.tails
  {
    CursorFacts(s, key);
    var c := s.tails[key];
    Block(s.size, s.buffer, c, c + Distance(s.size, s.head, c))
  }

  /** The definition of `Pending`, for use where unfolding it is costly. */
  lemma PendingIsBlock<T>(s: Snapshot<T>, key: nat)
    requires Coherent(s) && key in s.tails
    ensures Readable(s.size, s.buffer, s.tails[key], s.tails[key] + Distance(s.size, s.head, s.tails[key]))
    ensures Pending(s, key) ==
      Block(s.size, s.buffer, s.tails[key], s.tails[key] + Distance(s.size, s.head, s.tails[key]))
  {
    CursorFacts(s, key);
  }

  /** Consumer `key` has `sizeTail(key)` items pending, and item `i` is the slot
      `i` steps after its cursor. */
  lemma PendingAt<T>(s: Snapshot<T>, key: nat)
    requires Coherent(s) && key in s.tails
    ensures |Pending(s, key)| == Distance(s.size, s.head, s.tails[key]) < s.size
    ensures Readable(s.size, s.buffer, s.tails[key], s.tails[key] + |Pending(s, key)|)
    ensures forall i :: 0 <= i < |Pending(s, key)| ==>
      Pending(s, key)[i] == s.buffer[(s.tails[key] + i) % s.size]
  {
    CursorFacts(s, key);
  }

  // ---------------------------------------------------------------------------
  // The convergence step
  // ---------------------------------------------------------------------------

  /** `updateTail` read as a scan over cursor values: when no cursor unwraps
      below twice the capacity the tail stays; otherwise it is the least
      unwrapped cursor, reduced modulo the capacity. */
  lemma ConvergedTailByScan(size: nat, tail: nat, tails: map<nat, nat>)
    requires size >= 1 && tail < size && tail !in tails.Values
    ensures (forall c :: c in tails.Values ==> 2 * size <= Unwrap(size, tail, c)) ==>
      ConvergedTail(size, tail, tails) == tail
    ensures (exists c :: c in tails.Values && Unwrap(size, tail, c) < 2 * size) ==>
      exists c :: && c in tails.Values
                  && ConvergedTail(size, tail, tails) == Unwrap(size, tail, c) % size
                  && forall c' :: c' in tails.Values ==> Unwrap(size, tail, c) <= Unwrap(size, tail, c')
  {
    var xs := Unwrapped(size, tail, tails);
    var m := CappedMin(2 * size, xs);
    if exists c :: c in tails.Values && Unwrap(size, tail, c) < 2 * size {
      var c0 :| c0 in tails.Values && Unwrap(size, tail, c0) < 2 * size;
      assert Unwrap(size, tail, c0) in xs;
      assert m in xs;
      var c :| c in tails.Values && m == Unwrap(size, tail, c);
      assert ConvergedTail(size, tail, tails) == m % size by {
        ModPlus(m, size);
      }
      assert forall c' :: c' in tails.Values ==> m <= Unwrap(size, tail, c') by {
        assert forall c' :: c' in tails.Values ==> Unwrap(size, tail, c') in xs;
      }
    }
  }

  /** With every cursor a slot index and at least one consumer, the converged
      tail is one of the cursors, and none lies strictly closer to the old tail. */
  lemma ConvergedTailIsNearestCursor(size: nat, tail: nat, tails: map<nat, nat>)
    requires size >= 1 && tail < size && tails != map[]
    requires forall k :: k in tails ==> tails[k] < size
    ensures ConvergedTail(size, tail, tails) in tails.Values
    ensures forall k :: k in tails ==>
      Distance(size, ConvergedTail(size, tail, tails), tail) <= Distance(size, tails[k], tail)
  {
    var r := ConvergedTail(size, tail, tails);
    if tail !in tails.Values {
      var k0 :| k0 in tails;
      assert tails[k0] in tails.Values;
      ConvergedTailByScan(size, tail, tails);
      var c :| && c in tails.Values && r == Unwrap(size, tail, c) % size
               && forall c' :: c' in tails.Values ==> Unwrap(size, tail, c) <= Unwrap(size, tail, c');
      forall k | k in tails
        ensures Distance(size, r, tail) <= Distance(size, tails[k], tail)
      {
        assert tails[k] in tails.Values;
      }
    }
  }

  /** Convergence keeps every cursor in the window of the new tail. */
  lemma UpdateTailKeepsCoherent<T>(s: Snapshot<T>)
    requires Coherent(s)
    ensures Coherent(UpdateTail(s))
  {
    var r := UpdateTail(s);
    if s.tails != map[] && s.tail !in s.tails.Values {
      ConvergedTailIsNearestCursor(s.size, s.tail, s.tails);
      var kmin :| kmin in s.tails && s.tails[kmin] == r.tail;
      CursorFacts(s, kmin);
      DistanceSplit(s.size, s.tail, r.tail, s.head);
      forall k | k in s.tails
        ensures InWindow(r, s.tails[k])
      {
        DistanceSplit(s.size, s.tail, r.tail, s.tails[k]);
      }
    }
  }

  /** The converged tail is the cursor furthest behind `head`: no registered
      consumer has more items pending than the distance from it to `head`. */
  lemma ConvergedTailIsSlowest<T>(s: Snapshot<T>)
    requires Coherent(s) && s.tails != map[]
    ensures UpdateTail(s).tail in s.tails.Values
    ensures forall k :: k in s.tails ==>
      Distance(s.size, s.head, s.tails[k]) <= Distance(s.size, s.head, UpdateTail(s).tail)
  {
    var t := UpdateTail(s).tail;
    ConvergedTailIsNearestCursor(s.size, s.tail, s.tails);
    var kmin :| kmin in s.tails && s.tails[kmin] == t;
    forall k | k in s.tails
      ensures Distance(s.size, s.head, s.tails[k]) <= Distance(s.size, s.head, t)
    {
      DistanceSplit(s.size, s.tail, t, s.head);
      DistanceSplit(s.size, s.tail, s.tails[k], s.head);
    }
  }

  // ---------------------------------------------------------------------------
  // The producer
  // ---------------------------------------------------------------------------

  /** Pushing keeps the window invariant. */
  lemma PushKeepsCoherent<T>(s: Snapshot<T>, item: T)
    requires Coherent(s)
    ensures Coherent(Push(s, item).0)
  {
    var r := Push(s, item).0;
    if Push(s, item).1 {
      DistanceAfterNext(s.size, s.head, s.tail);
    }
  }

  /** Writing `item` into the slot just past a run of `d` readable slots, and
      nowhere else, extends what that run reads by `item`. */
  lemma BlockExtend<T>(size: nat, buffer: seq<T>, c: nat, d: nat, h: nat, item: T)
    requires c < size && d + 1 < size
    requires Readable(size, buffer, c, c + d) && h == (c + d) % size && h <= |buffer|
    ensures Readable(size, Store(buffer, h, item), c, c + d + 1)
    ensures Block(size, Store(buffer, h, item), c, c + d + 1) == Block(size, buffer, c, c + d) + [item]
  {
    var buffer' := Store(buffer, h, item);
    assert Readable(size, buffer', c, c + d + 1);
    var before, after := Block(size, buffer, c, c + d), Block(size, buffer', c, c + d + 1);
    forall j | 0 <= j < d
      ensures after[j] == before[j]
    {
      ModPlus(c + j, size);
      ModPlus(c + d, size);
      assert (c + j) % size != h;
    }
    assert after == before + [item];
  }

  /** When the slot after `head` is free, a consumer's pending run stops short of
      a full lap, ends at `head`, and grows by one when `head` advances. */
  lemma CursorBeforeFreeSlot<T>(s: Snapshot<T>, key: nat)
    requires Coherent(s) && key in s.tails && Next(s.size, s.head) != s.tail
    ensures Distance(s.size, s.head, s.tails[key]) + 1 < s.size
    ensures Distance(s.size, Next(s.size, s.head), s.tails[key]) == Distance(s.size, s.head, s.tails[key]) + 1
    ensures (s.tails[key] + Distance(s.size, s.head, s.tails[key])) % s.size == s.head
    ensures Readable(s.size, s.buffer, s.tails[key], s.tails[key] + Distance(s.size, s.head, s.tails[key]))
  {
    var c := s.tails[key];
    CursorFacts(s, key);
    FullIffDistance(s.size, s.head, s.tail);
    FullIffDistance(s.size, s.head, c);
    DistanceAfterNext(s.size, s.head, c);
    LandsOn(s.size, c, s.head);
  }

  /** A successful push appends the item to what every consumer has pending, and
      so overwrites no item any of them has yet to read. */
  lemma PushAppends<T>(s: Snapshot<T>, item: T, key: nat)
    requires Coherent(s) && key in s.tails && Push(s, item).1
    ensures Coherent(Push(s, item).0)
    ensures Pending(Push(s, item).0, key) == Pending(s, key) + [item]
  {
    var r := Push(s, item).0;
    PushKeepsCoherent(s, item);
    var c, d := s.tails[key], Distance(s.size, s.head, s.tails[key]);
    CursorBeforeFreeSlot(s, key);
    BlockExtend(s.size, s.buffer, c, d as nat, s.head, item);
    PendingIsBlock(s, key);
    PendingIsBlock(r, key);
  }

  /** Successive pushes: push `i` (counting from 0) is admitted exactly when the
      occupancy before the first push plus `i` is below `size - 1`. */
  function Pushes<T>(s: Snapshot<T>, items: seq<T>): (r: (Snapshot<T>, seq<bool>))
    requires s.Valid()
    ensures r.0.Valid() && |r.1| == |items|
    ensures r.0.tails == s.tails && r.0.tail == s.tail && r.0.size == s.size
    decreases |items|
  {
    if items == [] then (s, [])
    else
      var first := Push(s, items[0]);
      var rest := Pushes(first.0, items[1..]);
      (rest.0, [first.1] + rest.1)
  }

  lemma {:induction false} PushesAdmitUntilFull<T>(s: Snapshot<T>, items: seq<T>)
    requires s.Valid()
    decreases |items|
    ensures forall i :: 0 <= i < |items| ==>
      (Pushes(s, items).1[i] <==> Distance(s.size, s.head, s.tail) + i < s.size - 1)
  {
    if items != [] {
      var first := Push(s, items[0]);
      PushesAdmitUntilFull(first.0, items[1..]);
      FullIffDistance(s.size, s.head, s.tail);
      if first.1 {
        DistanceAfterNext(s.size, s.head, s.tail);
      }
      forall i | 0 < i < |items|
        ensures Pushes(s, items).1[i] == Pushes(first.0, items[1..]).1[i - 1]
      {
      }
    }
  }

  /** From a freshly built buffer with no consumer, exactly the first `size - 1`
      pushes are admitted and every later one is refused. */
  lemma FreshBufferCapacity<T>(maxSize: nat, items: seq<T>)
    requires maxSize >= 1
    ensures forall i :: 0 <= i < |items| ==> (Pushes(Init<T>(maxSize), items).1[i] <==> i < maxSize - 1)
  {
    PushesAdmitUntilFull(Init<T>(maxSize), items);
  }

  // ---------------------------------------------------------------------------
  // Registering and deregistering consumers
  // ---------------------------------------------------------------------------

  /** A new consumer starts with everything between the converged tail and
      `head` pending; nobody else's pending items change. */
  lemma AddTailKeepsCoherent<T>(s: Snapshot<T>)
    requires Coherent(s)
    ensures Coherent(AddTail(s).0)
    ensures |Pending(AddTail(s).0, AddTail(s).1)| == Distance(s.size, s.head, s.tail)
    ensures forall k :: k in s.tails ==> Pending(AddTail(s).0, k) == Pending(s, k)
  {
    var r := AddTail(s).0;
    assert Coherent(r) by {
      forall k | k in r.tails
        ensures InWindow(r, r.tails[k])
      {
        if k != AddTail(s).1 { assert k in s.tails; }
      }
    }
    PendingAt(r, AddTail(s).1);
    forall k | k in s.tails
      ensures Pending(r, k) == Pending(s, k)
    {
      PendingFrame(s, r, k);
    }
  }

  /** Deregistering keeps the window invariant and leaves the other consumers'
      pending items alone. */
  lemma RemoveTailKeepsCoherent<T>(s: Snapshot<T>, key: nat)
    requires Coherent(s)
    ensures Coherent(RemoveTail(s, key))
    ensures forall k :: k in s.tails && k != key ==> Pending(RemoveTail(s, key), k) == Pending(s, k)
  {
    var dropped := s.(tails := s.tails - {key});
    assert Coherent(dropped);
    UpdateTailKeepsCoherent(dropped);
    var r := RemoveTail(s, key);
    assert r == UpdateTail(dropped);
    forall k | k in s.tails && k != key
      ensures Pending(r, k) == Pending(s, k)
    {
      PendingFrame(s, r, k);
    }
  }

  // ---------------------------------------------------------------------------
  // Consumers
  // ---------------------------------------------------------------------------

  /** In a coherent state `pull` only ever reads stored slots. */
  lemma PullIsSafe<T>(s: Snapshot<T>, key: nat)
    requires Coherent(s) && key in s.tails
    ensures s.head % s.size == s.head
    ensures s.tails[key] != s.head % s.size ==> s.tails[key] % s.size < |s.buffer|
  {
    CursorFacts(s, key);
    ModPlus(s.head, s.size);
    ModPlus(s.tails[key], s.size);
  }

  /** Moving one cursor `n` steps on, within what it has pending, keeps it in the
      window and leaves it `n` fewer items pending. */
  lemma AdvanceInWindow<T>(s: Snapshot<T>, key: nat, n: nat)
    requires Coherent(s) && key in s.tails
    requires n <= Distance(s.size, s.head, s.tails[key])
    ensures InWindow(s, (s.tails[key] + n) % s.size)
    ensures Distance(s.size, s.head, (s.tails[key] + n) % s.size) == Distance(s.size, s.head, s.tails[key]) - n
  {
    CursorFacts(s, key);
    var c := s.tails[key];
    var c' := (c + n) % s.size;
    ForwardAt(s.size, c, n);
    DistanceSplit(s.size, s.tail, c, s.head);
    DistanceAdd(s.size, s.tail, c, c');
    DistanceSplit(s.size, c, c', s.head);
  }

  /** Moving one cursor to another place in the window keeps the state coherent. */
  lemma MoveKeepsCoherent<T>(s: Snapshot<T>, key: nat, cursor: nat)
    requires Coherent(s) && key in s.tails && InWindow(s, cursor)
    ensures Coherent(s.(tails := s.tails[key := cursor]))
  {
    var moved := s.(tails := s.tails[key := cursor]);
    forall k | k in moved.tails
      ensures InWindow(moved, moved.tails[k])
    {
      if k != key { assert k in s.tails; }
    }
  }

  /** Reading the slots `n` positions further on, from the reduced cursor, gives
      the same slots without the first `n`. */
  lemma BlockShift<T>(size: nat, buffer: seq<T>, c: nat, d: nat, n: nat, c': nat)
    requires c < size && d < size && n <= d
    requires Readable(size, buffer, c, c + d) && c' == (c + n) % size
    ensures Readable(size, buffer, c', c' + (d - n))
    ensures Block(size, buffer, c', c' + (d - n)) == Block(size, buffer, c, c + d)[n..]
  {
    forall i | c' <= i < c' + (d - n)
      ensures i % size < |buffer|
    {
      ModShift(size, c + n, c', i - c');
    }
    var before, after := Block(size, buffer, c, c + d), Block(size, buffer, c', c' + (d - n));
    forall j | 0 <= j < |after|
      ensures after[j] == before[n + j]
    {
      ModShift(size, c + n, c', j);
    }
  }

  /** A cursor moved `n` steps on has the old pending items without the first `n`. */
  lemma PendingShift<T>(s: Snapshot<T>, r: Snapshot<T>, key: nat, n: nat)
    requires Coherent(s) && Coherent(r) && key in s.tails && key in r.tails
    requires r.size == s.size && r.head == s.head && r.buffer == s.buffer
    requires n <= Distance(s.size, s.head, s.tails[key])
    requires r.tails[key] == (s.tails[key] + n) % s.size
    requires Distance(s.size, s.head, r.tails[key]) == Distance(s.size, s.head, s.tails[key]) - n
    ensures Pending(r, key) == Pending(s, key)[n..]
  {
    var c, c', d := s.tails[key], r.tails[key], Distance(s.size, s.head, s.tails[key]);
    CursorFacts(s, key);
    var before := Block(s.size, s.buffer, c, c + d);
    assert Pending(s, key) == before by {
      PendingIsBlock(s, key);
    }
    BlockShift(s.size, s.buffer, c, d as nat, n, c');
    var after := Block(s.size, s.buffer, c', c' + (d - n));
    assert after == before[n..];
    assert Pending(r, key) == after by {
      PendingIsBlock(r, key);
    }
  }

  /** Pending items depend only on the storage, `head` and the consumer's own
      cursor: moving the converged tail or other cursors leaves them alone. */
  lemma PendingFrame<T>(s: Snapshot<T>, r: Snapshot<T>, key: nat)
    requires Coherent(s) && Coherent(r) && key in s.tails && key in r.tails
    requires r.size == s.size && r.head == s.head && r.buffer == s.buffer
    requires r.tails[key] == s.tails[key]
    ensures Pending(r, key) == Pending(s, key)
  {
    PendingIsBlock(s, key);
    PendingIsBlock(r, key);
  }

  /** The cursor move shared by `pull` and a bulk pull: advance by `n` within what
      is pending, then reconverge. The state stays coherent, exactly the first
      `n` items stop being pending, and no other consumer is affected. */
  lemma AdvanceAndConverge<T>(s: Snapshot<T>, key: nat, n: nat, c': nat, r: Snapshot<T>)
    requires Coherent(s) && key in s.tails
    requires n <= Distance(s.size, s.head, s.tails[key])
    requires c' == (s.tails[key] + n) % s.size
    requires r == UpdateTail(s.(tails := s.tails[key := c']))
    ensures Coherent(r) && key in r.tails
    ensures Pending(r, key) == Pending(s, key)[n..]
    ensures forall k :: k in s.tails && k != key ==> Pending(r, k) == Pending(s, k)
  {
    AdvanceInWindow(s, key, n);
    MoveKeepsCoherent(s, key, c');
    var moved := s.(tails := s.tails[key := c']);
    UpdateTailKeepsCoherent(moved);
    PendingShift(s, UpdateTail(moved), key, n);
    forall k | k in s.tails && k != key
      ensures Pending(r, k) == Pending(s, k)
    {
      PendingFrame(s, r, k);
    }
  }

  /** `pull` hands out the oldest pending item of that consumer and only that
      one; it reports failure exactly when nothing is pending. */
  lemma PullTakesFirst<T>(s: Snapshot<T>, key: nat)
    requires Coherent(s) && key in s.tails
    ensures s.tails[key] != s.head % s.size ==> s.tails[key] % s.size < |s.buffer|
    ensures Coherent(Pull(s, key).0) && key in Pull(s, key).0.tails
    ensures Pull(s, key).1.None? <==> Pending(s, key) == []
    ensures Pull(s, key).1.Some? ==>
      && Pull(s, key).1.value == Pending(s, key)[0]
      && Pending(Pull(s, key).0, key) == Pending(s, key)[1..]
    ensures forall k :: k in s.tails && k != key ==> Pending(Pull(s, key).0, k) == Pending(s, k)
  {
    PullIsSafe(s, key);
    PendingAt(s, key);
    CursorFacts(s, key);
    var r := Pull(s, key).0;
    if s.tails[key] != s.head {
      AdvanceAndConverge(s, key, 1, Next(s.size, s.tails[key]), r);
    } else {
      assert r == s;
    }
  }

  /** `pullTail(key, length)` with `length` at most what is pending returns the
      oldest `length` pending items. */
  lemma PullTailTakesPrefix<T>(s: Snapshot<T>, key: nat, length: nat)
    requires Coherent(s) && key in s.tails
    requires length <= Distance(s.size, s.head, s.tails[key])
    ensures Readable(s.size, s.buffer, s.tails[key], s.tails[key] + length)
    ensures PullTail(s, key, length).1 == Pending(s, key)[..length]
  {
    PendingAt(s, key);
  }

  /** When the unwrapped cursor `pullTail(key, length)` stores is still below
      `size`, the state stays coherent, the rest remains pending and no other
      consumer is affected. */
  lemma PullTailWithinLap<T>(s: Snapshot<T>, key: nat, length: nat)
    requires Coherent(s) && key in s.tails
    requires length <= Distance(s.size, s.head, s.tails[key]) && s.tails[key] + length < s.size
    ensures Readable(s.size, s.buffer, s.tails[key], s.tails[key] + length)
    ensures Coherent(PullTail(s, key, length).0) && key in PullTail(s, key, length).0.tails
    ensures Pending(PullTail(s, key, length).0, key) == Pending(s, key)[length..]
    ensures forall k :: k in s.tails && k != key ==> Pending(PullTail(s, key, length).0, k) == Pending(s, k)
  {
    var stored := s.tails[key] + length;
    assert Readable(s.size, s.buffer, s.tails[key], stored) by {
      PullTailTakesPrefix(s, key, length);
    }
    assert stored == stored % s.size by {
      ModPlus(stored, s.size);
    }
    var r := PullTail(s, key, length).0;
    assert r.tails == s.tails[key := stored];
    assert r.tail == ConvergedTail(s.size, s.tail, s.tails[key := stored]);
    assert r.size == s.size && r.head == s.head && r.buffer == s.buffer;
    assert r == UpdateTail(s.(tails := s.tails[key := stored]));
    assert stored == (s.tails[key] + length) % s.size;
    AdvanceAndConverge(s, key, length, stored, r);
  }

  /** `pullTail(key)` returns exactly the pending items of that consumer. */
  lemma PullAllReturnsPending<T>(s: Snapshot<T>, key: nat)
    requires Coherent(s) && key in s.tails
    ensures Distance(s.size, s.head, s.tails[key]) >= 0
    ensures Readable(s.size, s.buffer, s.tails[key], s.tails[key] + Distance(s.size, s.head, s.tails[key]))
    ensures PullAll(s, key).1 == Pending(s, key)
  {
    CursorFacts(s, key);
    PendingAt(s, key);
    PullTailTakesPrefix(s, key, Distance(s.size, s.head, s.tails[key]) as nat);
  }

  /** The items returned by `count` successive single pulls of consumer `key`:
      while that many are pending, the oldest `count` of them, in order. */
  ghost function PullTimes<T>(s: Snapshot<T>, key: nat, count: nat): (r: seq<T>)
    requires Coherent(s) && key in s.tails
    ensures count <= |Pending(s, key)| ==> r == Pending(s, key)[..count]
    decreases count
  {
    if count == 0 then []
    else
      PullTakesFirst(s, key);
      var step := Pull(s, key);
      match step.1
      case None => []
      case Some(item) =>
        var rest := PullTimes(step.0, key, count - 1);
        if count <= |Pending(s, key)| then
          PrefixSplit(Pending(s, key), count);
          [item] + rest
        else
          [item] + rest
  }

  /** A non-empty prefix is its first element followed by a prefix of the rest. */
  lemma PrefixSplit<T>(xs: seq<T>, n: nat)
    requires 0 < n <= |xs|
    ensures xs[..n] == [xs[0]] + xs[1..][..n - 1]
  {
  }

  /** Draining in bulk yields the same ordered sequence as one single pull per
      available item. */
  lemma BulkMatchesSingle<T>(s: Snapshot<T>, key: nat)
    requires Coherent(s) && key in s.tails
    ensures Distance(s.size, s.head, s.tails[key]) >= 0
    ensures Readable(s.size, s.buffer, s.tails[key], s.tails[key] + Distance(s.size, s.head, s.tails[key]))
    ensures PullAll(s, key).1 == PullTimes(s, key, Distance(s.size, s.head, s.tails[key]) as nat)
  {
    PullAllReturnsPending(s, key);
    PendingAt(s, key);
  }

  // ---------------------------------------------------------------------------
  // Draining across the wrap
  // ---------------------------------------------------------------------------

  /** As written, draining a consumer whose pending items wrap past the end of
      storage leaves its cursor at `size + head`: `sizeTail` then reports nothing
      pending, yet `pull` reports an item (the already delivered slot `head`). */
  lemma WrappedDrainDefeatsEmptiness<T>(s: Snapshot<T>, key: nat)
    requires Coherent(s) && key in s.tails && s.tails[key] > s.head
    ensures Distance(s.size, s.head, s.tails[key]) >= 0
    ensures Readable(s.size, s.buffer, s.tails[key], s.tails[key] + Distance(s.size, s.head, s.tails[key]))
    ensures PullAll(s, key).0.tails[key] == s.size + s.head
    ensures Distance(s.size, s.head, PullAll(s, key).0.tails[key]) == 0
    ensures PullAll(s, key).0.tails[key] != s.head % s.size
    ensures PullAll(s, key).0.tails[key] % s.size < |s.buffer|
    ensures Pull(PullAll(s, key).0, key).1 == Some(s.buffer[s.head])
  {
    CursorFacts(s, key);
    assert |s.buffer| == s.size;
    var r := PullAll(s, key).0;
    assert r.size == s.size && r.head == s.head && r.buffer == s.buffer;
    var stored := r.tails[key];
    assert stored == s.size + s.head;
    assert s.head % s.size == s.head by { ModPlus(s.head, s.size); }
    assert stored % s.size == s.head by { ModPlus(stored, s.size); }
    var stale := Pull(r, key).1;
    assert stale.Some? && stale.value == r.buffer[r.tails[key] % r.size];
  }

  /** `pullTail` with the new cursor reduced modulo the capacity, as `pull` does. */
  ghost function PullTailWrapped<T>(s: Snapshot<T>, key: nat, length: nat): (r: (Snapshot<T>, seq<T>))
    requires s.Valid() && key in s.tails
    requires Readable(s.size, s.buffer, s.tails[key], s.tails[key] + length)
    ensures r.0.Valid()
    ensures |r.1| == length
  {
    var cursor := s.tails[key];
    var result := Block(s.size, s.buffer, cursor, cursor + length);
    (UpdateTail(s.(tails := s.tails[key := (cursor + length) % s.size])), result)
  }

  /** With the cursor wrapped, a bulk pull within what is pending still returns
      the oldest pending items. */
  lemma WrappedPullTailTakesPrefix<T>(s: Snapshot<T>, key: nat, length: nat)
    requires Coherent(s) && key in s.tails
    requires length <= Distance(s.size, s.head, s.tails[key])
    ensures Readable(s.size, s.buffer, s.tails[key], s.tails[key] + length)
    ensures PullTailWrapped(s, key, length).1 == Pending(s, key)[..length]
  {
    PendingAt(s, key);
  }

  /** With the cursor wrapped, any bulk pull within what is pending keeps the
      state coherent and leaves the rest pending, so a full drain leaves nothing
      for `pull` to report; no other consumer is affected. */
  lemma WrappedPullTailKeepsCoherent<T>(s: Snapshot<T>, key: nat, length: nat)
    requires Coherent(s) && key in s.tails
    requires length <= Distance(s.size, s.head, s.tails[key])
    ensures Readable(s.size, s.buffer, s.tails[key], s.tails[key] + length)
    ensures Coherent(PullTailWrapped(s, key, length).0)
    ensures key in PullTailWrapped(s, key, length).0.tails
    ensures Pending(PullTailWrapped(s, key, length).0, key) == Pending(s, key)[length..]
    ensures forall k :: k in s.tails && k != key ==> Pending(PullTailWrapped(s, key, length).0, k) == Pending(s, k)
  {
    WrappedPullTailTakesPrefix(s, key, length);
    AdvanceAndConverge(s, key, length, (s.tails[key] + length) % s.size, PullTailWrapped(s, key, length).0);
  }

  // ---------------------------------------------------------------------------
  // A worked run
  // ---------------------------------------------------------------------------

  /** A registry with one consumer converges the tail onto that consumer's cursor. */
  lemma ConvergedTailSingle(size: nat, tail: nat, key: nat, c: nat)
    requires size >= 1 && tail < size && c != tail && Unwrap(size, tail, c) < 2 * size
    ensures ConvergedTail(size, tail, map[key := c]) == Unwrap(size, tail, c) % size
  {
    var only := map[key := c];
    var u := Unwrap(size, tail, c);
    assert only.Values == {c} by {
      assert only[key] == c;
    }
    assert tail !in only.Values;
    assert CappedMin(2 * size, Unwrapped(size, tail, only)) == u by {
      assert Unwrapped(size, tail, only) == {u};
      CappedMinUnique(2 * size, {u}, u);
    }
    assert u >= size ==> u % size == u - size by {
      ModPlus(u, size);
    }
  }

  /** Capacity 4: push A, B, C; push D is refused; register X; pull(X) gives A;
      push D is now admitted; pullTail(X) gives B, C, D; and then pull(X)
      reports A once more, although nothing new was pushed. */
  lemma WorkedRun()
    ensures var s0 := Init<char>(4);
            var (s1, okA) := Push(s0, 'A');
            var (s2, okB) := Push(s1, 'B');
            var (s3, okC) := Push(s2, 'C');
            var (s4, okD) := Push(s3, 'D');
            var (s5, x) := AddTail(s4);
            var (s6, first) := Pull(s5, x);
            var (s7, okD') := Push(s6, 'D');
            var (s8, rest) := PullAll(s7, x);
            && okA && okB && okC && !okD && x == 0
            && first == Some('A') && okD' && rest == ['B', 'C', 'D']
            && Pull(s8, x).1 == Some('A')
  {
    var s3 := Snapshot(4, 3, 0, ['A', 'B', 'C'], map[]);
    var s1 := Snapshot(4, 1, 0, ['A'], map[]);
    assert Push(Init<char>(4), 'A') == (s1, true) by {
      assert Init<char>(4).buffer + ['A'] == s1.buffer;
    }
    var s2 := Snapshot(4, 2, 0, ['A', 'B'], map[]);
    assert Push(s1, 'B') == (s2, true) by {
      assert s1.buffer + ['B'] == s2.buffer;
    }
    assert Push(s2, 'C') == (s3, true) by {
      assert s2.buffer + ['C'] == s3.buffer;
    }
    assert Push(s3, 'D') == (s3, false);
    var s5 := Snapshot(4, 3, 0, ['A', 'B', 'C'], map[0 := 0]);
    assert AddTail(s3) == (s5, 0);
    var s6 := Snapshot(4, 3, 1, ['A', 'B', 'C'], map[0 := 1]);
    assert Pull(s5, 0) == (s6, Some('A')) by {
      assert s5.tails[0 := 1] == map[0 := 1];
      ConvergedTailSingle(4, 0, 0, 1);
    }
    var s7 := Snapshot(4, 0, 1, ['A', 'B', 'C', 'D'], map[0 := 1]);
    assert Push(s6, 'D') == (s7, true) by {
      assert s6.buffer + ['D'] == s7.buffer;
    }
    var s8 := Snapshot(4, 0, 0, ['A', 'B', 'C', 'D'], map[0 := 4]);
    assert PullAll(s7, 0) == (s8, ['B', 'C', 'D']) by {
      assert s7.tails[0 := 4] == map[0 := 4];
      ConvergedTailSingle(4, 1, 0, 4);
      assert Block(4, s7.buffer, 1, 4) == ['B', 'C', 'D'];
    }
    assert Pull(s8, 0).1 == Some('A');
  }
}
