/** `RingBuffer<T>`: one producer, any number of registered consumer cursors.
    Every field is a plain value and every method one sequential step; each
    method is proved to perform the transition of the same name in RingState. */
module RingBuffers {
  import opened RingState

  class RingBuffer<T> {
    /** `m_size`: the capacity; one slot always stays unused. */
    const size: nat
    /** `m_head`: the slot the producer writes next. */
    var head: nat
    /** `m_tail`: the converged tail, which the producer may not overwrite. */
    var tail: nat
    /** `m_buffer`: grows by one slot per push up to `size`, then is overwritten in place. */
    var buffer: seq<T>
    /** `m_tails`: consumer id to that consumer's cursor. */
    var tails: map<nat, nat>

    ghost function State(): Snapshot<T>
      reads this
    {
      Snapshot(size, head, tail, buffer, tails)
    }

    ghost predicate Valid()
      reads this
    {
      State().Valid()
    }

    constructor (maxSize: nat)
      requires maxSize >= 1
      ensures Valid() && State() == Init(maxSize)
    {
      size := maxSize;
      head := 0;
      tail := 0;
      buffer := [];
      tails := map[];
    }

    method Push(item: T) returns (ok: bool)
      requires Valid()
      modifies this`head, this`buffer
      ensures Valid()
      ensures (State(), ok) == RingState.Push(old(State()), item)
    {
      var nextHead := Next(size, head);
      if nextHead == tail {
        return false;
      }
      if |buffer| <= head {
        buffer := buffer + [item];
      } else {
        buffer := buffer[head := item];
      }
      head := nextHead;
      ok := true;
    }

    method AddTail() returns (id: nat)
      requires Valid()
      modifies this`tails
      ensures Valid()
      ensures (State(), id) == RingState.AddTail(old(State()))
    {
      var i: nat := 0;
      while i in tails
        invariant forall j: nat :: j < i ==> j in tails
        decreases set k | k in tails && i <= k
      {
        ghost var later := set k | k in tails && i + 1 <= k;
        assert later < set k | k in tails && i <= k by {
          assert i !in later;
        }
        i := i + 1;
      }
      tails := tails[i := tail];
      id := i;
    }

    method RemoveTail(key: nat)
      requires Valid()
      modifies this`tails, this`tail
      ensures Valid()
      ensures State() == RingState.RemoveTail(old(State()), key)
    {
      tails := tails - {key};
      UpdateTail();
    }

    /** `pull(key, ok)`: the next item of consumer `key`, and whether there was one. */
    method Pull(key: nat) returns (item: Option<T>, ok: bool)
      requires Valid() && key in tails
      requires tails[key] != head % size ==> tails[key] % size < |buffer|
      modifies this`tails, this`tail
      ensures Valid()
      ensures ok <==> item.Some?
      ensures (State(), item) == RingState.Pull(old(State()), key)
    {
      var cursor := tails[key];
      if cursor == head % size {
        return None, false;
      }
      var value := buffer[cursor % size];
      tails := tails[key := Next(size, cursor)];
      UpdateTail();
      return Some(value), true;
    }

    /** `pull(key)`: the same step, without the flag. */
    method PullItem(key: nat) returns (item: Option<T>)
      requires Valid() && key in tails
      requires tails[key] != head % size ==> tails[key] % size < |buffer|
      modifies this`tails, this`tail
      ensures Valid()
      ensures (State(), item) == RingState.Pull(old(State()), key)
    {
      var ok;
      item, ok := Pull(key);
    }

    /** `pullTail(key, length)`. */
    method PullTail(key: nat, length: nat) returns (items: seq<T>)
      requires Valid() && key in tails
      requires Readable(size, buffer, tails[key], tails[key] + length)
      modifies this`tails, this`tail
      ensures Valid()
      ensures (State(), items) == RingState.PullTail(old(State()), key, length)
    {
      var cursor := tails[key];
      var newTail := cursor + length;
      items := PullBlock(cursor, newTail);
      tails := tails[key := newTail];
      UpdateTail();
    }

    /** `pullTail(key)`: everything `sizeTail(key)` reports as available. */
    method PullAll(key: nat) returns (items: seq<T>)
      requires Valid() && key in tails
      requires SizeTail(key) >= 0
      requires Readable(size, buffer, tails[key], tails[key] + SizeTail(key))
      modifies this`tails, this`tail
      ensures Valid()
      ensures (State(), items) == RingState.PullAll(old(State()), key)
    {
      var length := SizeTail(key);
      items := PullTail(key, length as nat);
    }

    /** `sizeTail(key)`: how many items consumer `key` has yet to read. */
    function SizeTail(key: nat): (r: int)
      reads this
      requires Valid() && key in tails
      ensures r < size
      ensures tails[key] < size ==>
        0 <= r && r == (head - tails[key]) % size && (r == 0 <==> tails[key] == head)
    {
      assert tails[key] < size ==> Distance(size, head, tails[key]) == (head - tails[key]) % size by {
        if tails[key] < size { DistanceIsModular(size, head, tails[key]); }
      }
      Distance(size, head, tails[key])
    }

    /** `maxSize()`: the capacity, which bounds both shared cursors and the storage. */
    function MaxSize(): (r: nat)
      reads this
      requires Valid()
      ensures 1 <= r && head < r && tail < r && |buffer| <= r
    {
      size
    }

    /** `size()`: occupancy as the producer sees it, from the converged tail to `head`. */
    function Size(): (r: nat)
      reads this
      requires Valid()
      ensures r < size && r == (head - tail) % size
      ensures r == 0 <==> head == tail
    {
      DistanceIsModular(size, head, tail);
      Distance(size, head, tail)
    }

    /** `isFull()`: the producer's admission test fails. */
    function IsFull(): (r: bool)
      reads this
      requires Valid()
      ensures r <==> Size() == size - 1
    {
      FullIffDistance(size, head, tail);
      Next(size, head) == tail
    }

    /** `isEmpty()`: the converged tail has caught up with `head`. */
    function IsEmpty(): (r: bool)
      reads this
      requires Valid()
      ensures r <==> Size() == 0
    {
      tail == head
    }

    /** `updateTail`: scans the registry in an arbitrary order, stopping early when
        some cursor still sits on the converged tail. */
    method UpdateTail()
      requires Valid()
      modifies this`tail
      ensures Valid()
      ensures State() == RingState.UpdateTail(old(State()))
    {
      var currentMin := 2 * size;
      var remaining := tails.Keys;
      while remaining != {}
        invariant remaining <= tails.Keys
        invariant currentMin <= 2 * size
        invariant forall k :: k in tails && k !in remaining ==>
          tails[k] != tail && currentMin <= Unwrap(size, tail, tails[k])
        invariant currentMin == 2 * size ||
          exists k :: k in tails && k !in remaining && currentMin == Unwrap(size, tail, tails[k])
        decreases remaining
      {
        var k :| k in remaining;
        var tailPos := tails[k];
        if tailPos == tail {
          return;
        }
        if tailPos < tail {
          tailPos := tailPos + size;
        }
        if tailPos < currentMin {
          currentMin := tailPos;
        }
        remaining := remaining - {k};
      }
      assert tail !in tails.Values;
      CappedMinUnique(2 * size, Unwrapped(size, tail, tails), currentMin);
      if currentMin == 2 * size {
        return;
      }
      if currentMin >= size {
        currentMin := currentMin % size;
      }
      tail := currentMin;
    }

    /** `pullBlock(begin, end)`: the slots at cursor positions `begin` up to `end`,
        each taken modulo the capacity. */
    method PullBlock(begin: nat, end: nat) returns (result: seq<T>)
      requires Valid() && Readable(size, buffer, begin, end)
      ensures result == Block(size, buffer, begin, end)
    {
      result := [];
      var i := begin;
      while i < end
        invariant begin <= i && (i <= end || i == begin)
        invariant |result| == i - begin
        invariant forall j :: 0 <= j < |result| ==> result[j] == buffer[(begin + j) % size]
      {
        result := result + [buffer[i % size]];
        i := i + 1;
      }
    }
  }
}
