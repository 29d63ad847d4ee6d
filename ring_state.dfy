/** The state of a multi-consumer ring buffer as a value, and every operation of
    `RingBuffer<T>` as a pure transition on that value. The class in
    ring_buffer.dfy is proved to perform exactly these transitions. */
module RingState {

  datatype Option<T> = None | Some(value: T)

  /** `size` is `m_size`, `head` the producer cursor `m_head`, `tail` the converged
      tail `m_tail`, `buffer` the lazily grown storage `m_buffer`, and `tails` the
      registry `m_tails` from consumer id to that consumer's cursor. */
  datatype Snapshot<T> = Snapshot(size: nat, head: nat, tail: nat, buffer: seq<T>, tails: map<nat, nat>)
  {
    /** The class invariant: both shared cursors are slot indices, and storage is
        either still in its first lap (it ends exactly at `head`) or fully grown. */
    predicate Valid() {
      && size >= 1
      && head < size
      && tail < size
      && |buffer| <= size
      && (head == |buffer| || |buffer| == size)
    }
  }

  /** The state right after construction with capacity `maxSize`. */
  function Init<T>(maxSize: nat): (s: Snapshot<T>)
    requires maxSize >= 1
    ensures s.Valid() && s.buffer == [] && s.tails == map[]
    ensures s.size == maxSize && s.head == 0 && s.tail == 0
  {
    Snapshot(maxSize, 0, 0, [], map[])
  }

  /** `next`: the slot after `current`, wrapping at `size`. */
  function Next(size: nat, current: nat): (r: nat)
    requires size >= 1
    ensures r < size
    ensures current + 1 < size ==> r == current + 1
    ensures current + 1 == size ==> r == 0
  {
    (current + 1) % size
  }

  /** `size(head, tail)`: how many slots lie from `tail` forward to `head`. For two
      slot indices this is their difference modulo `size`. A cursor that is not a
      slot index (see `PullTail`) can make it negative; the source's unsigned
      arithmetic would wrap there instead. */
  function Distance(size: nat, head: nat, tail: nat): (r: int)
    ensures r < size || (head >= size && head >= tail)
    ensures head < size && tail < size ==> 0 <= r < size && (r == 0 <==> head == tail)
  {
    if head < tail then size - tail + head else head - tail
  }

  /** For two slot indices, `Distance` is their difference modulo `size`. */
  lemma DistanceIsModular(size: nat, head: nat, tail: nat)
    requires head < size && tail < size
    ensures Distance(size, head, tail) == (head - tail) % size
  {
    ModPlus(head - tail, size);
  }

  /** The admission test of `push` in terms of occupancy: the slot after `head`
      is the tail exactly when `size - 1` slots are in use. */
  lemma FullIffDistance(size: nat, head: nat, tail: nat)
    requires size >= 1 && head < size && tail < size
    ensures Next(size, head) == tail <==> Distance(size, head, tail) == size - 1
  {
  }

  /** Euclidean remainder of a value between `-n` and `2n`. */
  lemma ModPlus(x: int, n: int)
    requires n >= 1 && -n <= x < 2 * n
    ensures x % n == if x < 0 then x + n else if x < n then x else x - n
  {
    if x < 0 {
      assert x == (-1) * n + (x + n);
    } else if x >= n {
      assert x == 1 * n + (x - n);
    }
  }

  /** A cursor as seen from `tail`: one that is behind `tail` in raw terms has
      wrapped, so it counts one lap further on. */
  function Unwrap(size: nat, tail: nat, cursor: nat): (r: nat)
    ensures cursor < size && tail < size ==>
      r == tail + Distance(size, cursor, tail) && r % size == cursor
  {
    if cursor < tail then
      assert cursor < size ==> (cursor + size) % size == cursor by {
        if cursor < size { ModPlus(cursor + size, size); }
      }
      cursor + size
    else
      assert cursor < size ==> cursor % size == cursor by {
        if cursor < size { ModPlus(cursor, size); }
      }
      cursor
  }

  /** The running minimum of the convergence scan: it starts at `cap` and is
      lowered by every element below it. */
  ghost function CappedMin(cap: nat, xs: set<nat>): (r: nat)
    ensures r <= cap
    ensures forall x :: x in xs ==> r <= x
    ensures r == cap || r in xs
    decreases xs
  {
    if xs == {} then cap
    else
      var pick :| pick in xs;
      var m := CappedMin(cap, xs - {pick});
      assert forall y :: y in xs ==> y == pick || y in xs - {pick};
      if pick < m then pick else m
  }

  /** A capped minimum is determined by its three defining properties. */
  lemma {:induction false} CappedMinUnique(cap: nat, xs: set<nat>, m: nat)
    requires m <= cap
    requires forall x :: x in xs ==> m <= x
    requires m == cap || m in xs
    ensures m == CappedMin(cap, xs)
  {
    var r := CappedMin(cap, xs);
    assert r <= m by { if m in xs { assert r <= m; } }
    assert m <= r by { if r in xs { assert m <= r; } }
  }

  /** The registered cursors, unwrapped relative to `tail`. Only the set of
      cursor values matters, never the order in which the registry is read. */
  function Unwrapped(size: nat, tail: nat, tails: map<nat, nat>): set<nat> {
    set c | c in tails.Values :: Unwrap(size, tail, c)
  }

  /** `updateTail`: the new converged tail. It stays put when some cursor still
      sits on it or when no scanned value is below twice the capacity (an empty
      registry in particular); otherwise it becomes the least unwrapped cursor,
      reduced modulo the capacity. */
  ghost function ConvergedTail(size: nat, tail: nat, tails: map<nat, nat>): (r: nat)
    requires size >= 1
    ensures tail < size ==> r < size
    ensures tails == map[] || tail in tails.Values ==> r == tail
  {
    if tail in tails.Values then tail
    else
      var currentMin := CappedMin(2 * size, Unwrapped(size, tail, tails));
      if currentMin == 2 * size then tail
      else if currentMin >= size then currentMin % size
      else currentMin
  }

  /** The convergence step applied to a whole state. */
  ghost function UpdateTail<T>(s: Snapshot<T>): (r: Snapshot<T>)
    requires s.size >= 1
    ensures r == s.(tail := ConvergedTail(s.size, s.tail, s.tails))
    ensures s.Valid() ==> r.Valid()
  {
    s.(tail := ConvergedTail(s.size, s.tail, s.tails))
  }

  /** Storing `item` in slot `h` of the lazily grown storage: appended while the
      storage still ends at `h`, overwritten in place afterwards. */
  function Store<T>(buffer: seq<T>, h: nat, item: T): (r: seq<T>)
    requires h <= |buffer|
    ensures |r| == if h == |buffer| then |buffer| + 1 else |buffer|
    ensures r[h] == item
    ensures forall i :: 0 <= i < |r| && i != h ==> i < |buffer| && r[i] == buffer[i]
  {
    if |buffer| <= h then buffer + [item] else buffer[h := item]
  }

  /** `push`: refused exactly when the slot after `head` is the converged tail;
      otherwise the item lands in slot `head` (appended during the first lap,
      overwritten afterwards) and `head` advances. */
  function Push<T>(s: Snapshot<T>, item: T): (r: (Snapshot<T>, bool))
    requires s.Valid()
    ensures r.0.Valid()
    ensures r.1 <==> Next(s.size, s.head) != s.tail
    ensures !r.1 ==> r.0 == s
    ensures r.0.size == s.size && r.0.tail == s.tail && r.0.tails == s.tails
    ensures r.1 ==> r.0.head == Next(s.size, s.head) && r.0.buffer == Store(s.buffer, s.head, item)
  {
    var nextHead := Next(s.size, s.head);
    if nextHead == s.tail then (s, false)
    else (s.(head := nextHead, buffer := Store(s.buffer, s.head, item)), true)
  }

  /** The first id at or after `from` that `ids` does not hold, given that all
      ids below `from` are held. */
  function FreeFrom(ids: set<nat>, from: nat): (r: nat)
    requires forall j: nat :: j < from ==> j in ids
    ensures from <= r && r !in ids
    ensures forall j: nat :: j < r ==> j in ids
    decreases set j | j in ids && from <= j
  {
    if from !in ids then from
    else
      ghost var later := set j | j in ids && from + 1 <= j;
      ghost var current := set j | j in ids && from <= j;
      assert later < current by {
        assert later <= current;
        assert from in current && from !in later;
      }
      FreeFrom(ids, from + 1)
  }

  /** The smallest id not in `ids`: it is absent and every smaller id is present. */
  function SmallestFreeId(ids: set<nat>): (r: nat)
    ensures r !in ids
    ensures forall j: nat :: j < r ==> j in ids
  {
    FreeFrom(ids, 0)
  }

  /** `addTail`: registers the smallest free id with its cursor at the converged
      tail; returns the new state and the id. */
  function AddTail<T>(s: Snapshot<T>): (r: (Snapshot<T>, nat))
    ensures r.1 !in s.tails
    ensures forall j: nat :: j < r.1 ==> j in s.tails
    ensures r.0 == s.(tails := s.tails[r.1 := s.tail])
    ensures s.Valid() ==> r.0.Valid()
  {
    var id := SmallestFreeId(s.tails.Keys);
    (s.(tails := s.tails[id := s.tail]), id)
  }

  /** `removeTail`: forgets `key` (nothing happens to the registry when it is not
      registered) and then reconverges. */
  ghost function RemoveTail<T>(s: Snapshot<T>, key: nat): (r: Snapshot<T>)
    requires s.size >= 1
    ensures r.tails == s.tails - {key}
    ensures forall k :: k in r.tails ==> k != key && k in s.tails && r.tails[k] == s.tails[k]
    ensures r.size == s.size && r.head == s.head && r.buffer == s.buffer
    ensures r.tail == ConvergedTail(s.size, s.tail, s.tails - {key})
    ensures s.Valid() ==> r.Valid()
  {
    UpdateTail(s.(tails := s.tails - {key}))
  }

  /** Whether every cursor position in `[begin, end)` denotes a stored slot. */
  predicate Readable<T>(size: nat, buffer: seq<T>, begin: nat, end: nat) {
    size >= 1 && forall i :: begin <= i < end ==> i % size < |buffer|
  }

  /** `pullBlock`: the slots at cursor positions `begin`, `begin + 1`, ..., `end - 1`,
      each position taken modulo the capacity. */
  function Block<T>(size: nat, buffer: seq<T>, begin: nat, end: nat): (r: seq<T>)
    requires Readable(size, buffer, begin, end)
    ensures |r| == if begin <= end then end - begin else 0
    ensures forall j :: 0 <= j < |r| ==> r[j] == buffer[(begin + j) % size]
    decreases end - begin
  {
    if end <= begin then []
    else [buffer[begin % size]] + Block(size, buffer, begin + 1, end)
  }

  /** `pull`: empty when the consumer's cursor is on `head`; otherwise hands out
      that consumer's slot, advances only its cursor, and reconverges. */
  ghost function Pull<T>(s: Snapshot<T>, key: nat): (r: (Snapshot<T>, Option<T>))
    requires s.Valid() && key in s.tails
    requires s.tails[key] != s.head % s.size ==> s.tails[key] % s.size < |s.buffer|
    ensures r.0.Valid()
    ensures r.1.None? <==> s.tails[key] == s.head % s.size
    ensures r.1.None? ==> r.0 == s
    ensures r.1.Some? ==>
      && r.1.value == s.buffer[s.tails[key] % s.size]
      && r.0 == UpdateTail(s.(tails := s.tails[key := Next(s.size, s.tails[key])]))
  {
    var cursor := s.tails[key];
    if cursor == s.head % s.size then (s, None)
    else
      var item := s.buffer[cursor % s.size];
      (UpdateTail(s.(tails := s.tails[key := Next(s.size, cursor)])), Some(item))
  }

  /** `pullTail(key, length)`: the next `length` slots of that consumer, in order;
      its cursor is advanced by `length` without wrapping, then the tail
      reconverges. */
  ghost function PullTail<T>(s: Snapshot<T>, key: nat, length: nat): (r: (Snapshot<T>, seq<T>))
    requires s.Valid() && key in s.tails
    requires Readable(s.size, s.buffer, s.tails[key], s.tails[key] + length)
    ensures r.0.Valid()
    ensures |r.1| == length
    ensures forall i :: 0 <= i < length ==> r.1[i] == s.buffer[(s.tails[key] + i) % s.size]
    ensures r.0 == UpdateTail(s.(tails := s.tails[key := s.tails[key] + length]))
  {
    var cursor := s.tails[key];
    var newTail := cursor + length;
    var result := Block(s.size, s.buffer, cursor, newTail);
    (UpdateTail(s.(tails := s.tails[key := newTail])), result)
  }

  /** `pullTail(key)`: drains as many slots as `sizeTail(key)` reports. */
  ghost function PullAll<T>(s: Snapshot<T>, key: nat): (r: (Snapshot<T>, seq<T>))
    requires s.Valid() && key in s.tails
    requires Distance(s.size, s.head, s.tails[key]) >= 0
    requires Readable(s.size, s.buffer, s.tails[key], s.tails[key] + Distance(s.size, s.head, s.tails[key]))
    ensures r.0.Valid()
    ensures |r.1| == Distance(s.size, s.head, s.tails[key])
    ensures r == PullTail(s, key, Distance(s.size, s.head, s.tails[key]) as nat)
  {
    PullTail(s, key, Distance(s.size, s.head, s.tails[key]) as nat)
  }
}
