# Collision counter: a verified model

This project models `collision_counter.py`, an event-driven simulation of
point masses that move on a line and collide elastically. It is written in
Dafny. For every neighbouring pair of particles (i, i + 1) the simulation
predicts when and where the two meet. It keeps these predictions in an
indexed binary min-heap, keyed by (time, pair index). It then repeatedly:

- takes the earliest prediction;
- records it;
- exchanges momentum between the two particles;
- re-bases their positions so that the new trajectories pass through the
  collision point;
- retires that event;
- re-predicts the two neighbouring events in place in the heap.

The model has five modules, one per concern of the source:

- `Particles` (`particles.dfy`): the `Point` record as a class with mutable
  position and velocity, and the elastic velocity formulas. Momentum
  conservation, energy conservation, the equal-mass swap and uniqueness of
  the elastic outcome are proved about the formulas.
- `Events` (`events.dfy`): times with an explicit infinity
  (`Fin(real) | Inf`), the (time, index) key with its lexicographic order,
  the prediction formula of `Collision.__init__`, and `Collision.update`.
- `HeapOrder` (`heap_order.dfy`): the heap order over the sequence of keys
  in slot order. It also holds the step lemmas that sift-down and sift-up
  rely on.
- `Heaps` (`min_heap.dfy`): `MinHeap` as a class over three arrays. The
  source shares `Collision` objects between `_collisions` and `_heap`; the
  model stores them arena-style:
  - `events`: the events, indexed by pair index;
  - `heap`: pair indices in level order;
  - `pos`: the slot of each event, which is the source's `_location`.

  `Valid()` keeps `heap` and `pos` inverse permutations. So `heap` is always
  a permutation of the pair indices, and every event's `location` is its
  true slot.
- `Simulation` (`simulation.dfy`): `listCollisions` and its loop body. The
  loop keeps the heap valid. It also keeps every finite prediction "on
  track": at its time, both particles of its pair are at its position.

## Model

| member | source | states |
|---|---|---|
| `Particles.MomentumConserved` | collision_counter.py:31-37 | the post-collision velocities keep m1·v1 + m2·v2 |
| `Particles.EnergyConserved` | collision_counter.py:31-37 | the post-collision velocities keep m1·v1² + m2·v2² |
| `Particles.RelativeVelocityReversed` | collision_counter.py:36-37 | the relative velocity of the pair is reversed (v2' − v1' = v1 − v2) |
| `Particles.ElasticV1` | collision_counter.py:37 | the left particle's new velocity; times the total mass it is (m1 − m2)·v1 + 2·m2·v2 |
| `Particles.ElasticV2` | collision_counter.py:36 | the right particle's new velocity; times the total mass it is 2·m1·v1 − (m1 − m2)·v2 |
| `Particles.EqualMassesSwap` | collision_counter.py:31-37 | with equal masses the two particles exchange velocities |
| `Particles.ElasticIsUnique` | collision_counter.py:36-37 | any velocities that keep both momentum and energy are either the old ones or exactly the formulas' result |
| `Particles.Point.constructor` | collision_counter.py:9-13 | a point holds the given index, mass, position and velocity |
| `Particles.Point.UpdateV` | collision_counter.py:24-25 | only the velocity changes, to the given value |
| `Particles.Point.UpdateX` | collision_counter.py:26-27 | only the position changes, to the given value |
| `Particles.Point.Update` | collision_counter.py:28-29 | the point moves along its trajectory: its place at every time s is its old place at s + T |
| `Particles.Point.Collide` | collision_counter.py:31-37 | both velocities become the elastic ones, positions are untouched, momentum and energy are kept |
| `Events.KeyLess` | collision_counter.py:103-106 | Python's `<` on `[time, index]` lists: irreflexive, an earlier time comes first, Inf comes last, equal times are ordered by pair index |
| `Events.KeyLessStrictTotal` | collision_counter.py:56 | the (time, index) key order is irreflexive, asymmetric, transitive and total |
| `Events.MinKey` | collision_counter.py:103 | Python's `min` of two keys is one of them and no greater than either |
| `Events.Predict` | collision_counter.py:46-57 | the prediction keeps the pair index; a finite time is non-negative and both particles are at the recorded position at that time |
| `Events.PredictIsMeeting` | collision_counter.py:49-54 | the time is Fin(s) exactly when the velocities differ, the pair is in order and both particles are at the same place at s ≥ 0 |
| `Events.PredictNever` | collision_counter.py:49-54 | equal velocities, a left particle right of the right one, or a negative time each give Inf |
| `Events.Delay` | collision_counter.py:65-67 | `update(T)` adds T to a finite time, gives Inf when either the time or T is Inf, and keeps position and index |
| `HeapOrder.Parent` | collision_counter.py:115 | `(location - 1) // 2` is the slot whose left or right child is location |
| `HeapOrder.MinChild` | collision_counter.py:99-106 | the child `heap_down` swaps with (the sentinel case giving the left child) has the smallest key among loc's children |
| `HeapOrder.SmallestChild` | collision_counter.py:103-104 | if the key at loc is below the smaller child's, loc's children are in order |
| `HeapOrder.RootIsMin` | collision_counter.py:139-140 | in a heap the root key is no greater than any key |
| `HeapOrder.SiftDownStep` | collision_counter.py:106-111 | swapping loc with its smaller child moves the only fault down to that child |
| `HeapOrder.SiftUpStep` | collision_counter.py:120-127 | swapping loc with a parent that is not smaller moves the only fault up to the parent and orders the parent's children |
| `HeapOrder.Repaired` | collision_counter.py:103-104 | once the edges around the faulty slot are in order, the whole heap is |
| `HeapOrder.Leaf` | collision_counter.py:96 | a faulty slot without children needs no sift-down |
| `HeapOrder.AnySlot` | collision_counter.py:136-137 | in a heap every slot is ready for `heap_down` |
| `HeapOrder.HeapExceptAnyKey` | collision_counter.py:130-137 | in a heap, overwriting one slot's key leaves a heap whose only fault is at that slot |
| `Heaps.KeysOfSwapped` | collision_counter.py:107-109 | swapping two slots of `_heap` swaps their keys |
| `Heaps.MinHeap.constructor` | collision_counter.py:79-88 | the bottom-up build stores the entries unchanged by index and leaves a valid heap |
| `Heaps.MinHeap.Swap` | collision_counter.py:107-109 | a swap exchanges two slots and the two locations follow, so slots stay consistent |
| `Heaps.MinHeap.HeapDown` | collision_counter.py:92-111 | sifting down a slot whose only fault is its key makes the heap whole (from slot lo on, for the build) and keeps slots consistent |
| `Heaps.MinHeap.HeapUp` | collision_counter.py:113-127 | after sifting up, the heap's only possible fault is below slot location, and slots stay consistent |
| `Heaps.MinHeap.Reorder` | collision_counter.py:130-137 | only the event at the slot changes: it takes the new time and position and keeps its index; heap order and slot consistency are restored |
| `Heaps.MinHeap.ExtractMin` | collision_counter.py:139-140 | returns the event at the root, whose key is no greater than any event's; nothing changes |
| `Simulation.Between` | collision_counter.py:148 | the prediction for a pair carries the left particle's index and is on the pair's trajectories |
| `Simulation.Rescheduled` | collision_counter.py:176-190 | after pair i collides: event i is Inf, events i − 1 and i + 1 (where they exist) are fresh predictions, every other event is kept |
| `Simulation.RescheduledOnTrack` | collision_counter.py:166-190 | rescheduling puts every event back on its pair's trajectories |
| `Simulation.Bounce` | collision_counter.py:164-175 | the pair gets the elastic velocities and both new trajectories pass through tx at time T |
| `Simulation.Repredict` | collision_counter.py:180-190 | a neighbour's event becomes the fresh prediction for its pair, nothing else changes, and the heap stays valid |
| `Simulation.Retire` | collision_counter.py:176-177 | event i's time becomes Inf, nothing else changes, and the heap stays valid |
| `Simulation.Reschedule` | collision_counter.py:176-190 | the events become exactly `Rescheduled`, and the heap stays valid |
| `Simulation.Fire` | collision_counter.py:163-190 | one loop step: elastic velocities, both particles at tx at time T, events rescheduled, every event on track, heap valid; other particles are not touched |
| `Simulation.NewPoints` | collision_counter.py:147 | particle k is a new object with index k and the k-th mass, position and velocity |
| `Simulation.PredictAll` | collision_counter.py:148 | event e is the prediction for particles e and e + 1, carries index e, and is on track |
| `Simulation.WithinAppend` | collision_counter.py:156-162 | a record inside the window keeps the whole list inside it |
| `Simulation.ListCollisions` | collision_counter.py:142-191 | at most m records (none when m ≤ 0); each has a time in [0, t] and a pair index in [0, n − 2] |

## Left out

- Floating point: positions, velocities and times are exact reals. `math.inf`
  is the constructor `Inf`. IEEE effects are not modelled: `inf * 0 = NaN`
  in the position of a never-meeting pair, and `inf + inf`.
- Events.Predict: when the velocities are equal the source's position is
  `x1 + inf * v1` (infinite or NaN). The model records `x1`, and no
  contract says anything about the position of an Inf event.
- `round4` and the rounding of the output triple are left out. Records hold
  exact times and positions.
- Re-basing uses the exact collision position. The source uses the rounded
  one, `ans[-1][2]`.
- The list of records is not proved chronological. That is a whole-system
  physical property. One edge case is not excluded by the guard at
  collision_counter.py:53: a re-predicted neighbour pair that touches
  exactly at time 0 gets time 0 even after later collisions.
- ListCollisions requires n ≥ 2. With fewer particles the source returns
  [] when t < 0 or m < 0, and otherwise fails in `extract_min` on an empty
  list. The model excludes both.
- ListCollisions requires positive masses, equal-length inputs and a
  finite t. The source does not check them, and it divides by m1 + m2.
- Python's unbounded `int` is `int` here; `float` is `real`.
- The accessors `m`, `v`, `x`, `i`, `key`, `t` and `location` are field
  reads in the model.
- `set_location` is the write to `pos` inside `Swap`.
- The source calls `set_location` on a freshly built `Collision` before
  `reorder`. The model drops it, because `reorder` only copies the time
  and position.
- The unused locals `m1`, `m2` of `Collision.__init__` are dropped.
- Heaps.MinHeap.HeapUp: the model does not claim that `heap_up` alone
  repairs a key that decreased. It states only what `reorder` relies on
  before calling `heap_down`.
