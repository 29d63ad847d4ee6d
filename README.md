# glbinding `RingBuffer<T>` in Dafny

glbinding uses `RingBuffer<T>` to pass logged calls from the rendering thread to
logging threads. It is a bounded ring with one producer and any number of
registered consumers. The producer `push`es into slot `m_head`. Each consumer has
its own cursor in the tail registry `m_tails`. After every consumer step the buffer
recomputes the *converged tail* `m_tail`: the position of the slowest consumer,
which the producer may not overwrite. One slot always stays unused, so a buffer
built with capacity `maxSize` holds at most `maxSize - 1` items.

The project has three modules:

- `RingState` (ring_state.dfy). The buffer's state is a value, `Snapshot`, and
  every operation is a pure transition on it: `Push`, `AddTail`, `RemoveTail`,
  `Pull`, `PullTail`, `PullAll` and `UpdateTail`, built from `Next`, `Distance`
  (`size(head, tail)`) and `Block` (`pullBlock`). `Snapshot.Valid` is the class
  invariant. Both shared cursors are slot indices, and the lazily grown storage
  either ends at `head` (first lap) or is full-grown.
- `RingBuffers` (ring_buffer.dfy). The class `RingBuffer<T>` has the source's
  fields.
  - Its mutators are methods with the source's loops. These are the registry
    scan in `AddTail`, the convergence scan in `UpdateTail` and the copy loop in
    `PullBlock`.
  - Each mutator is proved to perform exactly the `RingState` transition of the
    same name.
  - The queries are `reads`-only functions.
- `RingProperties` (ring_properties.dfy). This module proves what the transitions
  promise over whole runs. It rests on the window invariant `Coherent`: every
  consumer cursor lies on the way from the converged tail to `head`. Under that
  invariant, each consumer's `Pending` items behave as a FIFO queue:
  - a successful push appends to every consumer's queue, so nothing unread is
    ever overwritten;
  - `pull` removes the oldest item;
  - a bulk pull removes a prefix;
  - the converged tail is the slowest consumer;
  - draining in bulk equals pulling one item at a time.

### Where the code departs from its design

The tail registry is meant to hold cursors in `[0, maxSize)`. The code does not
keep that promise.
`pullTail` stores `tail + length` without reducing it modulo `m_size`
(RingBuffer.hpp:90-92). The model follows the code.

- `RingState.PullTail` and `RingBuffers.RingBuffer.PullTail` store the unreduced
  cursor.
- `RingProperties.PullTailWithinLap` proves the FIFO properties for the case the
  code handles correctly: the new cursor is still below `size`.
- The case that wraps is the finding below.

With no consumer registered, the code never moves the converged tail, and the
model keeps that behaviour. `FreshBufferCapacity` states the consequence. From a
fresh buffer with no consumers, all pushes after the first `size - 1` are
refused, however many follow.

## Model

| member | source | states |
|---|---|---|
| RingState.Init | source/glbinding/source/RingBuffer.hpp:13-19 | a new buffer has capacity `maxSize`, both cursors at 0, no storage and no consumers, and satisfies the class invariant |
| RingState.Next | source/glbinding/source/RingBuffer.hpp:150-152 | the next slot is `current + 1`, except that it is 0 after the last slot; it is always a slot index |
| RingState.Distance | source/glbinding/source/RingBuffer.hpp:196-206 | for two slot indices the distance lies in `[0, size)` and is 0 exactly when they are equal; it reaches `size` only for a cursor that is not a slot index |
| RingState.DistanceIsModular | source/glbinding/source/RingBuffer.hpp:196-206 | for slot indices the wrap-aware distance is `(head - tail)` modulo `size` |
| RingState.FullIffDistance | source/glbinding/source/RingBuffer.hpp:126-134 | the admission test `next(head) == tail` holds exactly when the distance from `tail` to `head` is `size - 1` |
| RingState.Unwrap | source/glbinding/source/RingBuffer.hpp:169-172 | an unwrapped cursor is `tail` plus its forward distance from `tail`, and reduces back to the cursor modulo `size` |
| RingState.CappedMin | source/glbinding/source/RingBuffer.hpp:159-178 | the running minimum is at most its start value `2 * size`, at most every scanned value, and either the start value or one of the scanned values |
| RingState.CappedMinUnique | source/glbinding/source/RingBuffer.hpp:159-178 | any value with those three properties is that minimum, so the result does not depend on the scan order |
| RingState.ConvergedTail | source/glbinding/source/RingBuffer.hpp:155-193 | the new converged tail is a slot index; it stays put when the registry is empty or some cursor sits on the tail |
| RingState.UpdateTail | source/glbinding/source/RingBuffer.hpp:155-193 | convergence changes only the converged tail, and keeps the class invariant |
| RingState.Store | source/glbinding/source/RingBuffer.hpp:33-36 | storing into slot `h` puts the item there, appending only when the storage ends at `h`, and leaves every other slot as it was |
| RingState.Push | source/glbinding/source/RingBuffer.hpp:22-40 | admitted exactly when `next(head) != tail`; a refused push changes nothing; an admitted one stores the item in slot `head`, advances `head` and leaves the tail and registry alone; the invariant is kept |
| RingState.FreeFrom | source/glbinding/source/RingBuffer.hpp:45-52 | the id search from `from` ends at an absent id, with every smaller id present |
| RingState.SmallestFreeId | source/glbinding/source/RingBuffer.hpp:45-52 | the chosen id is absent from the registry and every smaller id is present |
| RingState.AddTail | source/glbinding/source/RingBuffer.hpp:43-55 | registers the smallest free id, with its cursor at the converged tail, and changes nothing else |
| RingState.RemoveTail | source/glbinding/source/RingBuffer.hpp:58-62 | removes only `key` from the registry (a no-op on the registry for an absent key), keeps every other cursor, then reconverges the tail |
| RingState.Block | source/glbinding/source/RingBuffer.hpp:209-218 | the result has `end - begin` items, and item `j` is slot `(begin + j) % size` |
| RingState.Pull | source/glbinding/source/RingBuffer.hpp:65-77 | empty, with the state unchanged, exactly when the cursor equals `head % size`; otherwise returns slot `cursor % size`, advances only that cursor by `next`, and reconverges |
| RingState.PullTail | source/glbinding/source/RingBuffer.hpp:87-95 | returns exactly `length` items, item `i` being slot `(cursor + i) % size`; stores the unreduced cursor `cursor + length`, then reconverges |
| RingState.PullAll | source/glbinding/source/RingBuffer.hpp:98-102 | drains exactly `sizeTail(key)` items through `pullTail(key, length)` |
| RingBuffers.RingBuffer.constructor | source/glbinding/source/RingBuffer.hpp:13-19 | the new object is in the initial state |
| RingBuffers.RingBuffer.Push | source/glbinding/source/RingBuffer.hpp:22-40 | performs `RingState.Push` on the object's fields, changing only `head` and the storage |
| RingBuffers.RingBuffer.AddTail | source/glbinding/source/RingBuffer.hpp:43-55 | its search loop finds the id `RingState.AddTail` specifies and registers it, changing only the registry |
| RingBuffers.RingBuffer.RemoveTail | source/glbinding/source/RingBuffer.hpp:58-62 | performs `RingState.RemoveTail` |
| RingBuffers.RingBuffer.Pull | source/glbinding/source/RingBuffer.hpp:65-77 | performs `RingState.Pull`; the flag is set exactly when an item is returned |
| RingBuffers.RingBuffer.PullItem | source/glbinding/source/RingBuffer.hpp:80-84 | the flagless overload performs the same step |
| RingBuffers.RingBuffer.PullTail | source/glbinding/source/RingBuffer.hpp:87-95 | performs `RingState.PullTail`, storing the unreduced cursor |
| RingBuffers.RingBuffer.PullAll | source/glbinding/source/RingBuffer.hpp:98-102 | performs `RingState.PullAll`, draining `SizeTail(key)` items |
| RingBuffers.RingBuffer.SizeTail | source/glbinding/source/RingBuffer.hpp:105-110 | below `size`; for a cursor that is a slot index it is `(head - cursor) mod size`, and 0 exactly when the cursor is on `head` |
| RingBuffers.RingBuffer.MaxSize | source/glbinding/source/RingBuffer.hpp:113-115 | the capacity is positive and bounds `head`, the tail and the storage |
| RingBuffers.RingBuffer.Size | source/glbinding/source/RingBuffer.hpp:118-123 | occupancy is `(head - tail) mod size`, below `size`, and 0 exactly when `head == tail` |
| RingBuffers.RingBuffer.IsFull | source/glbinding/source/RingBuffer.hpp:126-134 | full exactly when `size() == maxSize - 1` |
| RingBuffers.RingBuffer.IsEmpty | source/glbinding/source/RingBuffer.hpp:137-144 | empty exactly when `size() == 0` |
| RingBuffers.RingBuffer.UpdateTail | source/glbinding/source/RingBuffer.hpp:155-193 | the registry scan, with its early return, computes `RingState.UpdateTail` whatever order the registry is visited in, changing only the tail |
| RingBuffers.RingBuffer.PullBlock | source/glbinding/source/RingBuffer.hpp:209-218 | the copy loop returns `RingState.Block` and changes nothing |
| RingProperties.DistanceAdd | source/glbinding/source/RingBuffer.hpp:196-206 | distances add along a walk shorter than a lap |
| RingProperties.DistanceSplit | source/glbinding/source/RingBuffer.hpp:196-206 | a slot passed on the way from `a` to `c` splits the distance in two |
| RingProperties.DistanceInjective | source/glbinding/source/RingBuffer.hpp:196-206 | two slots at the same distance from `a` are equal |
| RingProperties.DistanceAfterNext | source/glbinding/source/RingBuffer.hpp:196-206 | advancing `head` by `next`, short of a full lap, raises the distance by one |
| RingProperties.ForwardAt | source/glbinding/source/RingBuffer.hpp:196-206 | slot `(c + j) % size` lies `j` steps after `c` |
| RingProperties.LandsOn | source/glbinding/source/RingBuffer.hpp:196-206 | walking `size(h, c)` steps from `c` lands on `h` |
| RingProperties.ModShift | source/glbinding/source/RingBuffer.hpp:212-215 | reducing a cursor modulo `size` before stepping on reads the same slots |
| RingProperties.CursorFacts | source/glbinding/source/RingBuffer.hpp:105-110 | in a coherent state a cursor is a slot index, its `sizeTail` is at most the distance from the tail to `head`, and every slot it has yet to read is stored |
| RingProperties.PendingAt | source/glbinding/source/RingBuffer.hpp:105-110 | a consumer has `sizeTail(key) < size` items pending, and item `i` is slot `(cursor + i) % size` |
| RingProperties.ConvergedTailByScan | source/glbinding/source/RingBuffer.hpp:155-193 | with no cursor on the tail, the tail stays when every unwrapped cursor is at least `2 * size`; otherwise it becomes the least unwrapped cursor modulo `size` |
| RingProperties.ConvergedTailIsNearestCursor | source/glbinding/source/RingBuffer.hpp:155-193 | with at least one consumer and slot-index cursors, the new tail is one of the cursors, and no cursor is closer to the old tail |
| RingProperties.ConvergedTailSingle | source/glbinding/source/RingBuffer.hpp:155-193 | with a single consumer not on the tail, the tail converges onto that consumer's cursor reduced modulo `size` |
| RingProperties.UpdateTailKeepsCoherent | source/glbinding/source/RingBuffer.hpp:155-193 | convergence keeps every cursor in the window |
| RingProperties.ConvergedTailIsSlowest | source/glbinding/source/RingBuffer.hpp:155-193 | the converged tail is a registered cursor, and no consumer has more items pending than the distance from it to `head` |
| RingProperties.PushKeepsCoherent | source/glbinding/source/RingBuffer.hpp:22-40 | a push keeps the window invariant |
| RingProperties.CursorBeforeFreeSlot | source/glbinding/source/RingBuffer.hpp:24-29 | when the push is admitted, each consumer's pending run is shorter than `size - 1`, ends at `head`, and grows by one when `head` advances |
| RingProperties.BlockExtend | source/glbinding/source/RingBuffer.hpp:33-36 | writing the slot just past a readable run extends what the run reads by exactly the new item |
| RingProperties.PushAppends | source/glbinding/source/RingBuffer.hpp:22-40 | an admitted push appends the item to every consumer's pending items, so it overwrites nothing a consumer has yet to read |
| RingProperties.Pushes | source/glbinding/source/RingBuffer.hpp:22-40 | successive pushes report one flag per item and never touch the tail or the registry |
| RingProperties.PushesAdmitUntilFull | source/glbinding/source/RingBuffer.hpp:22-40 | in a sequence of pushes with no consumer step between them, push `i` is admitted exactly when the starting occupancy plus `i` is below `size - 1` |
| RingProperties.FreshBufferCapacity | source/glbinding/source/RingBuffer.hpp:13-40 | from a new buffer exactly the first `maxSize - 1` pushes are admitted |
| RingProperties.AddTailKeepsCoherent | source/glbinding/source/RingBuffer.hpp:43-55 | registering keeps the invariant; the new consumer has everything from the tail to `head` pending, and no other consumer's items change |
| RingProperties.RemoveTailKeepsCoherent | source/glbinding/source/RingBuffer.hpp:58-62 | deregistering keeps the invariant and changes no other consumer's pending items |
| RingProperties.PullIsSafe | source/glbinding/source/RingBuffer.hpp:67-72 | in a coherent state `head % size` is `head`, and a non-empty pull reads a stored slot |
| RingProperties.AdvanceInWindow | source/glbinding/source/RingBuffer.hpp:73-74 | moving a cursor `n` steps, within what it has pending, keeps it in the window and leaves `n` fewer pending |
| RingProperties.MoveKeepsCoherent | source/glbinding/source/RingBuffer.hpp:73-74 | moving one cursor within the window keeps the invariant |
| RingProperties.BlockShift | source/glbinding/source/RingBuffer.hpp:209-218 | reading from `n` slots further on drops the first `n` items |
| RingProperties.PendingShift | source/glbinding/source/RingBuffer.hpp:73-74 | a cursor moved `n` steps on has the old pending items minus the first `n` |
| RingProperties.PendingFrame | source/glbinding/source/RingBuffer.hpp:73-74 | a consumer's pending items depend only on the storage, `head` and its own cursor |
| RingProperties.AdvanceAndConverge | source/glbinding/source/RingBuffer.hpp:73-74 | advancing one cursor by `n` and reconverging keeps the invariant, drops exactly that consumer's first `n` items, and leaves the others alone |
| RingProperties.PullTakesFirst | source/glbinding/source/RingBuffer.hpp:65-77 | `pull` fails exactly when nothing is pending; otherwise it returns the oldest pending item, removes only that one, leaves other consumers alone and keeps the invariant |
| RingProperties.PullTailTakesPrefix | source/glbinding/source/RingBuffer.hpp:87-95 | `pullTail(key, length)` within what is pending returns the oldest `length` pending items in order |
| RingProperties.PullTailWithinLap | source/glbinding/source/RingBuffer.hpp:87-95 | when `cursor + length` stays below `size`, `pullTail` keeps the invariant, leaves the rest pending and leaves other consumers alone |
| RingProperties.PullAllReturnsPending | source/glbinding/source/RingBuffer.hpp:98-102 | `pullTail(key)` returns exactly the consumer's pending items |
| RingProperties.PullTimes | source/glbinding/source/RingBuffer.hpp:65-77 | `count` successive pulls return the oldest `count` pending items, in order, when that many are pending |
| RingProperties.BulkMatchesSingle | source/glbinding/source/RingBuffer.hpp:98-102 | draining in bulk yields the same sequence as `sizeTail(key)` single pulls |
| RingProperties.WrappedDrainDefeatsEmptiness | source/glbinding/source/RingBuffer.hpp:87-102 | draining a consumer whose items wrap leaves its cursor at `size + head`; `sizeTail` is then 0, yet `pull` returns slot `head` again |
| RingProperties.PullTailWrapped | source/glbinding/source/RingBuffer.hpp:87-95 | the corrected bulk pull returns `length` items and keeps the class invariant |
| RingProperties.WrappedPullTailTakesPrefix | source/glbinding/source/RingBuffer.hpp:87-95 | the corrected bulk pull returns the oldest `length` pending items |
| RingProperties.WrappedPullTailKeepsCoherent | source/glbinding/source/RingBuffer.hpp:87-95 | the corrected bulk pull keeps the invariant for any length within what is pending, leaves the rest pending (nothing after a full drain), and leaves other consumers alone |
| RingProperties.WorkedRun | source/glbinding/source/RingBuffer.hpp:22-102 | capacity 4: push A, B, C admitted; D refused; consumer 0 registered; pull gives A; D admitted; `pullTail` gives B, C, D; a further pull gives A again |

## Left out

- Atomics, memory orderings, threads and `m_tail_mutex` are left out. Every
  operation is one sequential step, and interleaving between producer and
  consumers is not modelled.
- `#include`s, logging and the class declaration in `RingBuffer.h` are not part
  of this model. `TailIdentifier` is taken to be a natural number.
- Addresses are not modelled. `pull` and `pullTail` return the slot values, not
  `T*` addresses into `m_buffer`. So aliasing with later overwrites is not modelled.
  In `pull` the source also returns a `T` where it declares `T*`.
- `RingBuffers.RingBuffer.constructor`: requires `maxSize >= 1`. With capacity 0,
  every `next` in the source divides by zero.
- `RingState.Pull`, `RingBuffers.RingBuffer.Pull`, `RingBuffers.RingBuffer.PullItem`:
  - They require `key` to be registered. In the source, `m_tails[key]` would
    insert a fresh cursor instead.
  - They require the slot to be read to be stored. In the source,
    `m_buffer.at` would throw `std::out_of_range` instead.
  - `RingProperties.PullIsSafe` shows that every coherent state meets the second
    condition.
- `RingState.PullTail`, `RingBuffers.RingBuffer.PullTail`, `RingBuffers.RingBuffer.PullBlock`:
  they require every slot read to be stored, where `at` would throw. This covers
  the over-length request, which the source leaves to its callers.
- `RingState.PullAll`, `RingBuffers.RingBuffer.PullAll`: they require
  `sizeTail(key) >= 0`. This fails only for an unreduced cursor left by
  `pullTail`, where the source's unsigned subtraction would wrap to a huge length.
- `RingState.Distance`: returns an unbounded integer instead of a wrapped `uint64_t`.
  More generally, no `uint64_t` or `unsigned int` wrap-around is modelled. Cursors,
  ids and lengths are unbounded naturals.
- `RingBuffers.RingBuffer.SizeTail`: its modular statement covers only cursors
  that are slot indices. For an unreduced cursor it states only the upper bound.
- `RingBuffers.RingBuffer.PullTail` follows the source and stores the unreduced
  cursor. The corrected `RingProperties.PullTailWrapped` is not wired into the
  class, because the class models the code as written.

## Findings

| source | as written | input that shows it | evidently intended | confidence | as-written member | corrected member |
|---|---|---|---|---|---|---|
| source/glbinding/source/RingBuffer.hpp:90-92 | `pullTail` stores `tail + length` without reducing it modulo `m_size`. After a drain across the end of storage the cursor is `m_size + head`, so `pull`'s emptiness test `tail == head % m_size` fails and `pull` hands out slot `head` again with `ok == true` | capacity 4: push A, B, C; register X; pull(X) gives A; push D; pullTail(X) gives B, C, D; pull(X) gives A again | store `(tail + length) % m_size`, as `pull` does with `next` | not executed | RingProperties.WrappedDrainDefeatsEmptiness | RingProperties.WrappedPullTailKeepsCoherent |
