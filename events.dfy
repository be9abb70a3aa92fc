/** Predicted collisions between neighbouring particles and their sort keys. */
module Events {

  /** A point in time; Inf stands for "never" (the source's math.inf). */
  datatype Time = Fin(value: real) | Inf

  /** The source's key list [time, index], compared lexicographically. */
  datatype SortKey = SortKey(time: Time, index: nat)

  /** The predicted collision of pair i (particles i and i+1): when, where,
      and which pair. Where the time is Inf the position carries no meaning. */
  datatype Collision = Collision(time: Time, x: real, i: nat)

  predicate TimeLess(a: Time, b: Time)
  {
    match (a, b)
    case (Fin(p), Fin(q)) => p < q
    case (Fin(_), Inf) => true
    case (Inf, _) => false
  }

  /** a comes strictly after the finite time t. */
  predicate After(a: Time, t: real)
  {
    TimeLess(Fin(t), a)
  }

  /** Python's comparison of the key lists [time, index]: an earlier time
      comes first, Inf comes last, and the pair index breaks ties. */
  predicate KeyLess(a: SortKey, b: SortKey)
    ensures KeyLess(a, b) ==> a != b && !TimeLess(b.time, a.time)
    ensures TimeLess(a.time, b.time) ==> KeyLess(a, b)
    ensures a.time.Fin? && b.time == Inf ==> KeyLess(a, b)
    ensures a.time == b.time ==> (KeyLess(a, b) <==> a.index < b.index)
  {
    TimeLess(a.time, b.time) || (a.time == b.time && a.index < b.index)
  }

  /** Non-strict order: a is not after b. */
  predicate KeyLeq(a: SortKey, b: SortKey)
  {
    !KeyLess(b, a)
  }

  function KeyOf(c: Collision): SortKey
  {
    SortKey(c.time, c.i)
  }

  /** Python's min over two key lists: the second only when strictly smaller. */
  function MinKey(a: SortKey, b: SortKey): (r: SortKey)
    ensures KeyLeq(r, a) && KeyLeq(r, b) && (r == a || r == b)
  {
    if KeyLess(b, a) then b else a
  }

  /** KeyLess is a strict total order: the pair index breaks every tie. */
  lemma KeyLessStrictTotal(a: SortKey, b: SortKey, c: SortKey)
    ensures !KeyLess(a, a)
    ensures KeyLess(a, b) ==> !KeyLess(b, a)
    ensures KeyLess(a, b) && KeyLess(b, c) ==> KeyLess(a, c)
    ensures a != b ==> KeyLess(a, b) || KeyLess(b, a)
  {
  }

  lemma KeyLeqTrans(a: SortKey, b: SortKey, c: SortKey)
    requires KeyLeq(a, b) && KeyLeq(b, c)
    ensures KeyLeq(a, c)
  {
  }

  /** Collision.__init__: when do particles at x1, x2 moving at v1, v2 meet?
      Equal velocities, a negative time, or a left particle already to the
      right of the right one all give Inf. */
  function Predict(x1: real, v1: real, x2: real, v2: real, i: nat): (c: Collision)
    ensures c.i == i
    ensures c.time.Fin? ==> 0.0 <= c.time.value
    ensures c.time.Fin? ==> c.x == x1 + c.time.value * v1 == x2 + c.time.value * v2
  {
    if v1 == v2 then Collision(Inf, x1, i)
    else
      var time := (x2 - x1) / (v1 - v2);
      var x := x1 + time * v1;
      if time < 0.0 || x1 > x2 then Collision(Inf, x, i) else Collision(Fin(time), x, i)
  }

  /** The predicted time is finite exactly when the pair is in order, moves at
      different speeds and meets at some non-negative time, and then it is
      that meeting time. */
  lemma PredictIsMeeting(x1: real, v1: real, x2: real, v2: real, i: nat, s: real)
    ensures Predict(x1, v1, x2, v2, i).time == Fin(s)
        <==> v1 != v2 && x1 <= x2 && 0.0 <= s && x1 + s * v1 == x2 + s * v2
  {
    if v1 != v2 && x1 + s * v1 == x2 + s * v2 {
      var d, q := v1 - v2, (x2 - x1) / (v1 - v2);
      assert d * s == x2 - x1;
      assert d * q == x2 - x1;
      assert d * (s - q) == 0.0;
    }
  }

  /** The three ways a prediction is "never". */
  lemma PredictNever(x1: real, v1: real, x2: real, v2: real, i: nat)
    ensures v1 == v2 ==> Predict(x1, v1, x2, v2, i).time == Inf
    ensures x1 > x2 ==> Predict(x1, v1, x2, v2, i).time == Inf
    ensures v1 != v2 && (x2 - x1) / (v1 - v2) < 0.0 ==> Predict(x1, v1, x2, v2, i).time == Inf
  {
  }

  /** Collision.update: the time is pushed back by dt; the place and the pair
      stay. Delaying by Inf retires the event. */
  function Delay(c: Collision, dt: Time): (d: Collision)
    ensures d.i == c.i && d.x == c.x
    ensures dt == Inf ==> d.time == Inf
    ensures c.time == Inf ==> d.time == Inf
    ensures c.time.Fin? && dt.Fin? ==> d.time.Fin? && d.time.value - c.time.value == dt.value
  {
    match (c.time, dt)
    case (Fin(a), Fin(b)) => c.(time := Fin(a + b))
    case _ => c.(time := Inf)
  }
}
