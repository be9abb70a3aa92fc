/** The event loop of the simulation: repeatedly take the earliest predicted
    collision, apply it to the two particles, and re-predict the events of
    the neighbouring pairs. */
module Simulation {
  import opened Particles
  import opened Events
  import opened HeapOrder
  import opened Heaps

  /** One reported collision: its time, its pair index and its position. */
  datatype Record = Record(time: real, i: nat, x: real)

  /** The collision predicted for neighbours p (left) and q, from their
      current trajectories. */
  function Between(p: Point, q: Point): (c: Collision)
    reads p, q
    ensures c.i == p.index && OnTrack(p, q, c)
  {
    Predict(p.position, p.velocity, q.position, q.velocity, p.index)
  }

  /** A finite event of the pair p, q lies at a non-negative time at which both
      particles are at the event's position. */
  ghost predicate OnTrack(p: Point, q: Point, c: Collision)
    reads p, q
  {
    c.time.Fin? ==> 0.0 <= c.time.value && p.At(c.time.value) == c.x && q.At(c.time.value) == c.x
  }

  /** The shape of the loop's state: particles in index order with positive
      masses (so they are distinct), and a valid heap with one event per
      neighbouring pair. */
  ghost predicate Shape(points: seq<Point>, h: MinHeap)
    reads points, h, h.events, h.heap, h.pos
  {
    && 2 <= |points|
    && (forall k :: 0 <= k < |points| ==> points[k].index == k && points[k].mass > 0.0)
    && h.Valid() && IsHeap(h.Keys()) && h.events.Length == |points| - 1
  }

  /** Every event in ev lies on the trajectories of its pair. */
  ghost predicate AllOnTrack(points: seq<Point>, ev: seq<Collision>)
    reads points
    requires |ev| < |points|
  {
    forall e :: 0 <= e < |ev| ==> OnTrack(points[e], points[e + 1], ev[e])
  }

  /** Every event of a pair outside [i - 1, i + 1] is on track. */
  ghost predicate OnTrackAway(points: seq<Point>, ev: seq<Collision>, i: nat)
    reads points
    requires |ev| < |points|
  {
    forall e :: 0 <= e < |ev| && e + 1 != i && e != i && e != i + 1 ==>
      OnTrack(points[e], points[e + 1], ev[e])
  }

  /** The state the loop keeps: its shape, and every event on the
      trajectories of its two particles. */
  ghost predicate Consistent(points: seq<Point>, h: MinHeap)
    reads points, h, h.events, h.heap, h.pos
  {
    Shape(points, h) && AllOnTrack(points, h.events[..])
  }

  /** The events after pair i has collided: event i is retired (its time
      becomes Inf), the events of pairs i - 1 and i + 1, where they exist,
      are predicted afresh, and every other event is kept. */
  ghost function Rescheduled(points: seq<Point>, ev: seq<Collision>, i: nat): (r: seq<Collision>)
    reads points
    requires i < |ev| && |ev| + 1 == |points|
    ensures |r| == |ev|
    ensures r[i] == ev[i].(time := Inf)
    ensures 0 < i ==> r[i - 1] == Between(points[i - 1], points[i])
    ensures i + 1 < |ev| ==> r[i + 1] == Between(points[i + 1], points[i + 2])
    ensures forall e :: 0 <= e < |ev| && e + 1 != i && e != i && e != i + 1 ==> r[e] == ev[e]
  {
    var retired := ev[i := Delay(ev[i], Inf)];
    var left := if 0 < i then retired[i - 1 := Between(points[i - 1], points[i])] else retired;
    if i + 1 < |ev| then left[i + 1 := Between(points[i + 1], points[i + 2])] else left
  }

  /** Rescheduling puts every event back on track, whatever the events of
      pairs i - 1, i and i + 1 were before. */
  lemma RescheduledOnTrack(points: seq<Point>, ev: seq<Collision>, i: nat)
    requires i < |ev| && |ev| + 1 == |points|
    requires OnTrackAway(points, ev, i)
    ensures AllOnTrack(points, Rescheduled(points, ev, i))
  {
    var r := Rescheduled(points, ev, i);
    forall e | 0 <= e < |r|
      ensures OnTrack(points[e], points[e + 1], r[e])
    {
      if e + 1 != i && e != i && e != i + 1 {
        assert r[e] == ev[e];
      }
    }
  }

  /** The two colliding particles exchange momentum elastically and are
      re-based to time 0 on their new trajectories, which keep them at tx at
      time T. */
  method Bounce(p: Point, q: Point, T: real, tx: real)
    requires p != q && 0.0 < p.mass && 0.0 < q.mass
    modifies p, q
    ensures p.velocity == ElasticV1(p.mass, q.mass, old(p.velocity), old(q.velocity))
    ensures q.velocity == ElasticV2(p.mass, q.mass, old(p.velocity), old(q.velocity))
    ensures p.At(T) == tx && q.At(T) == tx
  {
    p.Collide(q);
    p.UpdateX(tx - p.velocity * T);
    q.UpdateX(tx - q.velocity * T);
  }

  /** Re-predicts the event of pair e from the current particles and
      repairs it in place in the heap, at the slot the event records. */
  method Repredict(points: seq<Point>, h: MinHeap, e: nat)
    requires Shape(points, h) && e + 1 < |points|
    modifies h.events, h.heap, h.pos
    ensures Shape(points, h)
    ensures h.events[..] == old(h.events[..])[e := Between(points[e], points[e + 1])]
  {
    var c := Between(points[e], points[e + 1]);
    var loc := h.pos[e];
    h.Reorder(c, loc);
    assert old(h.events[e]).(time := c.time, x := c.x) == c;
  }

  /** Retires event i: Collision.update by Inf, then repaired in the heap. */
  method Retire(points: seq<Point>, h: MinHeap, i: nat)
    requires Shape(points, h) && i + 1 < |points|
    modifies h.events, h.heap, h.pos
    ensures Shape(points, h)
    ensures h.events[..] == old(h.events[..])[i := Delay(old(h.events[i]), Inf)]
  {
    var loc := h.pos[i];
    h.Reorder(Delay(h.events[i], Inf), loc);
  }

  /** After pair i has collided: retires event i and re-predicts the events
      of pairs i - 1 and i + 1 where they exist. */
  method Reschedule(points: seq<Point>, h: MinHeap, i: nat)
    requires Shape(points, h) && i + 1 < |points|
    modifies h.events, h.heap, h.pos
    ensures Shape(points, h)
    ensures h.events[..] == Rescheduled(points, old(h.events[..]), i)
  {
    Retire(points, h, i);
    if i != 0 {
      Repredict(points, h, i - 1);
    }
    if i != |points| - 2 {
      Repredict(points, h, i + 1);
    }
  }

  /** Applies the collision of pair i at time T and position tx (the body of
      the event loop): the two particles bounce and are re-based, and the
      affected events are rescheduled. No other particle changes. */
  method Fire(points: seq<Point>, h: MinHeap, i: nat, T: real, tx: real)
    requires Consistent(points, h) && i + 1 < |points|
    requires h.events[i].time == Fin(T) && h.events[i].x == tx
    modifies points[i], points[i + 1], h.events, h.heap, h.pos
    ensures Consistent(points, h)
    ensures points[i].velocity
         == ElasticV1(points[i].mass, points[i + 1].mass, old(points[i].velocity), old(points[i + 1].velocity))
    ensures points[i + 1].velocity
         == ElasticV2(points[i].mass, points[i + 1].mass, old(points[i].velocity), old(points[i + 1].velocity))
    ensures points[i].At(T) == tx == points[i + 1].At(T)
    ensures h.events[..] == Rescheduled(points, old(h.events[..]), i)
  {
    ghost var ev := h.events[..];
    Bounce(points[i], points[i + 1], T, tx);
    forall e | 0 <= e < |ev| && e + 1 != i && e != i && e != i + 1
      ensures OnTrack(points[e], points[e + 1], ev[e])
    {
      assert points[e] != points[i] && points[e] != points[i + 1];
      assert points[e + 1] != points[i] && points[e + 1] != points[i + 1];
      assert old(OnTrack(points[e], points[e + 1], ev[e]));
    }
    Reschedule(points, h, i);
    RescheduledOnTrack(points, ev, i);
  }

  /** Every record lies in the time window [0, t] and names a pair up to last. */
  ghost predicate Within(ans: seq<Record>, t: real, last: int)
  {
    forall r :: r in ans ==> 0.0 <= r.time <= t && r.i <= last
  }

  lemma WithinAppend(ans: seq<Record>, r: Record, t: real, last: int)
    requires Within(ans, t, last) && 0.0 <= r.time <= t && r.i <= last
    ensures Within(ans + [r], t, last)
  {
  }

  /** The particles of the simulation, particle k with index k, mass M[k],
      position x[k] and velocity v[k], each a new object. */
  method NewPoints(M: seq<real>, x: seq<real>, v: seq<real>) returns (points: seq<Point>)
    requires |x| == |M| && |v| == |M|
    ensures |points| == |M|
    ensures forall k :: 0 <= k < |M| ==> fresh(points[k])
    ensures forall k :: 0 <= k < |M| ==> points[k].index == k && points[k].mass == M[k]
    ensures forall k :: 0 <= k < |M| ==> points[k].position == x[k] && points[k].velocity == v[k]
  {
    points := [];
    for k := 0 to |M|
      invariant |points| == k
      invariant forall a :: 0 <= a < k ==> fresh(points[a])
      invariant forall a :: 0 <= a < k ==> points[a].index == a && points[a].mass == M[a]
      invariant forall a :: 0 <= a < k ==> points[a].position == x[a] && points[a].velocity == v[a]
    {
      var p := new Point(k, M[k], x[k], v[k]);
      points := points + [p];
    }
  }

  /** The first prediction for every neighbouring pair, in pair order. */
  method PredictAll(points: seq<Point>) returns (collisions: seq<Collision>)
    requires 2 <= |points|
    requires forall k :: 0 <= k < |points| ==> points[k].index == k
    ensures |collisions| == |points| - 1
    ensures forall e :: 0 <= e < |collisions| ==> collisions[e] == Between(points[e], points[e + 1])
    ensures forall e :: 0 <= e < |collisions| ==> collisions[e].i == e
    ensures AllOnTrack(points, collisions)
  {
    collisions := [];
    for k := 0 to |points| - 1
      invariant |collisions| == k
      invariant forall e :: 0 <= e < k ==> collisions[e] == Between(points[e], points[e + 1])
      invariant forall e :: 0 <= e < k ==> collisions[e].i == e
    {
      collisions := collisions + [Between(points[k], points[k + 1])];
    }
  }

  /** listCollisions: simulates the particles with masses M, positions x and
      velocities v and reports the collisions in the order they are taken
      from the heap, stopping at the first one after time t or once m have
      been reported. */
  method ListCollisions(M: seq<real>, x: seq<real>, v: seq<real>, m: int, t: real) returns (ans: seq<Record>)
    requires 2 <= |M| && |x| == |M| && |v| == |M|
    requires forall k :: 0 <= k < |M| ==> M[k] > 0.0
    ensures 0 <= m ==> |ans| <= m
    ensures m <= 0 ==> ans == []
    ensures forall r :: r in ans ==> 0.0 <= r.time <= t && r.i <= |M| - 2
  {
    var n := |M|;
    var points := NewPoints(M, x, v);
    var collisions := PredictAll(points);
    var heap := new MinHeap(collisions);

    ans := [];
    var T: Time := Fin(0.0);
    var count := 0;
    while T.Fin? && T.value <= t && count <= m
      invariant Consistent(points, heap) && |points| == n
      invariant fresh(heap.events) && fresh(heap.heap) && fresh(heap.pos)
      invariant forall a :: 0 <= a < n ==> fresh(points[a])
      invariant |ans| == count && (count <= m || count == 0)
      invariant Within(ans, t, n - 2)
      decreases m - count
    {
      var e := heap.ExtractMin();
      var c := heap.events[e];
      var i := KeyOf(c).index;
      T := c.time;
      if After(T, t) {
        break;
      }
      count := count + 1;
      if count > m {
        break;
      }
      assert OnTrack(points[e], points[e + 1], c) && c.i == e;
      WithinAppend(ans, Record(T.value, c.i, c.x), t, n - 2);
      ans := ans + [Record(T.value, c.i, c.x)];
      Fire(points, heap, i, T.value, c.x);
    }
  }
}
