/** Point masses on a line and the one-dimensional elastic collision rule. */
module Particles {

  /** Velocity of the left particle after an elastic collision, written as the
      source writes it (two quotients over the total mass). */
  function ElasticV1(m1: real, m2: real, v1: real, v2: real): (w1: real)
    requires m1 + m2 != 0.0
    ensures (m1 + m2) * w1 == (m1 - m2) * v1 + 2.0 * m2 * v2
  {
    ((m1 - m2) * v1) / (m1 + m2) + (2.0 * m2 * v2) / (m1 + m2)
  }

  /** Velocity of the right particle after an elastic collision. */
  function ElasticV2(m1: real, m2: real, v1: real, v2: real): (w2: real)
    requires m1 + m2 != 0.0
    ensures (m1 + m2) * w2 == 2.0 * m1 * v1 - (m1 - m2) * v2
  {
    (2.0 * m1 * v1) / (m1 + m2) - ((m1 - m2) * v2) / (m1 + m2)
  }

  /** The relative velocity of the pair is reversed by the collision. */
  lemma RelativeVelocityReversed(m1: real, m2: real, v1: real, v2: real)
    requires m1 + m2 != 0.0
    ensures ElasticV2(m1, m2, v1, v2) - ElasticV1(m1, m2, v1, v2) == v1 - v2
  {
    var s := m1 + m2;
    var w1, w2 := ElasticV1(m1, m2, v1, v2), ElasticV2(m1, m2, v1, v2);
        assert s * (w2 - w1) == s * (v1 - v2) by {
      assert s * (w2 - w1) == s * w2 - s * w1;
      assert s * w2 - s * w1 == 2.0 * m1 * v1 - (m1 - m2) * v2 - (m1 - m2) * v1 - 2.0 * m2 * v2;
    }
    CancelFactor(s, w2 - w1, v1 - v2);
  }

  lemma CancelFactor(s: real, a: real, b: real)
    requires s != 0.0 && s * a == s * b
    ensures a == b
  {
    assert s * (a - b) == 0.0;
  }

  /** Momentum m1*v1 + m2*v2 is conserved. */
  lemma MomentumConserved(m1: real, m2: real, v1: real, v2: real)
    requires m1 + m2 != 0.0
    ensures m1 * ElasticV1(m1, m2, v1, v2) + m2 * ElasticV2(m1, m2, v1, v2) == m1 * v1 + m2 * v2
  {
    var s := m1 + m2;
    var w1, w2 := ElasticV1(m1, m2, v1, v2), ElasticV2(m1, m2, v1, v2);
        assert s * (m1 * w1 + m2 * w2) == s * (m1 * v1 + m2 * v2) by {
      calc {
        s * (m1 * w1 + m2 * w2);
        m1 * (s * w1) + m2 * (s * w2);
        m1 * ((m1 - m2) * v1 + 2.0 * m2 * v2) + m2 * (2.0 * m1 * v1 - (m1 - m2) * v2);
        s * (m1 * v1 + m2 * v2);
      }
    }
    CancelFactor(s, m1 * w1 + m2 * w2, m1 * v1 + m2 * v2);
  }

  /** Twice the kinetic energy, m1*v1^2 + m2*v2^2, is conserved. */
  lemma EnergyConserved(m1: real, m2: real, v1: real, v2: real)
    requires m1 + m2 != 0.0
    ensures m1 * ElasticV1(m1, m2, v1, v2) * ElasticV1(m1, m2, v1, v2)
          + m2 * ElasticV2(m1, m2, v1, v2) * ElasticV2(m1, m2, v1, v2)
         == m1 * v1 * v1 + m2 * v2 * v2
  {
    var w1, w2 := ElasticV1(m1, m2, v1, v2), ElasticV2(m1, m2, v1, v2);
    MomentumConserved(m1, m2, v1, v2);
    RelativeVelocityReversed(m1, m2, v1, v2);
    // m1*(w1 - v1) == m2*(v2 - w2) and w1 + v1 == w2 + v2
    assert m1 * (w1 - v1) == m2 * (v2 - w2);
    assert w1 + v1 == w2 + v2;
    calc {
      m1 * w1 * w1 + m2 * w2 * w2 - (m1 * v1 * v1 + m2 * v2 * v2);
      (m1 * (w1 - v1)) * (w1 + v1) - (m2 * (v2 - w2)) * (v2 + w2);
      (m2 * (v2 - w2)) * (w1 + v1) - (m2 * (v2 - w2)) * (w2 + v2);
      0.0;
    }
  }

  /** Equal masses simply exchange their velocities. */
  lemma EqualMassesSwap(m: real, v1: real, v2: real)
    requires m != 0.0
    ensures ElasticV1(m, m, v1, v2) == v2 && ElasticV2(m, m, v1, v2) == v1
  {
        CancelFactor(m + m, ElasticV1(m, m, v1, v2), v2);
    CancelFactor(m + m, ElasticV2(m, m, v1, v2), v1);
  }

  /** The elastic rule is the only non-trivial outcome that conserves both
      momentum and energy: any other pair of velocities that does so is the
      pair before the collision. */
  lemma ElasticIsUnique(m1: real, m2: real, v1: real, v2: real, w1: real, w2: real)
    requires m1 > 0.0 && m2 > 0.0
    requires m1 * w1 + m2 * w2 == m1 * v1 + m2 * v2
    requires m1 * w1 * w1 + m2 * w2 * w2 == m1 * v1 * v1 + m2 * v2 * v2
    ensures (w1 == v1 && w2 == v2) || (w1 == ElasticV1(m1, m2, v1, v2) && w2 == ElasticV2(m1, m2, v1, v2))
  {
    var d1, d2 := w1 - v1, v2 - w2;
    assert m1 * d1 == m2 * d2;
    assert (m1 * d1) * (w1 + v1) == (m2 * d2) * (w2 + v2) by {
      calc {
        (m1 * d1) * (w1 + v1);
        m1 * w1 * w1 - m1 * v1 * v1;
        m2 * v2 * v2 - m2 * w2 * w2;
        (m2 * d2) * (w2 + v2);
      }
    }
    if d1 == 0.0 {
      assert m2 * d2 == 0.0;
      CancelFactor(m2, d2, 0.0);
    } else {
      assert m1 * d1 != 0.0;
      CancelFactor(m1 * d1, w1 + v1, w2 + v2);
      // the relative velocity is reversed; together with momentum this fixes w1, w2
      var s := m1 + m2;
      assert s * w1 == (m1 - m2) * v1 + 2.0 * m2 * v2 by {
        assert w2 == w1 + v1 - v2;
        assert m1 * w1 + m2 * (w1 + v1 - v2) == m1 * v1 + m2 * v2;
      }
      assert s * w2 == 2.0 * m1 * v1 - (m1 - m2) * v2 by {
        assert w1 == w2 + v2 - v1;
        assert m1 * (w2 + v2 - v1) + m2 * w2 == m1 * v1 + m2 * v2;
      }
            CancelFactor(s, w1, ElasticV1(m1, m2, v1, v2));
      CancelFactor(s, w2, ElasticV2(m1, m2, v1, v2));
    }
  }

  /** One point mass. Its index and mass are fixed for life; its position is
      the position it would have at time 0 if it had always moved with its
      current velocity, so its place at time s is position + s * velocity. */
  class Point {
    const index: nat
    const mass: real
    var position: real
    var velocity: real

    constructor (i: nat, m: real, x: real, v: real)
      ensures index == i && mass == m && position == x && velocity == v
    {
      index, mass, position, velocity := i, m, x, v;
    }

    /** Where the point is at time s on its current trajectory. */
    function At(s: real): real
      reads this
    {
      position + s * velocity
    }

    method UpdateV(v: real)
      modifies this
      ensures velocity == v && position == old(position)
    {
      velocity := v;
    }

    method UpdateX(x: real)
      modifies this
      ensures position == x && velocity == old(velocity)
    {
      position := x;
    }

    /** Moves the point along its trajectory by time t. */
    method Update(t: real)
      modifies this
      ensures velocity == old(velocity)
      ensures forall s :: At(s) == old(At(s + t))
    {
      position := position + t * velocity;
    }

    /** Elastic collision of this point (left) with other (right): only the
        two velocities change, and momentum and energy are kept. */
    method Collide(other: Point)
      requires other != this && mass + other.mass != 0.0
      modifies this, other
      ensures velocity == ElasticV1(mass, other.mass, old(velocity), old(other.velocity))
      ensures other.velocity == ElasticV2(mass, other.mass, old(velocity), old(other.velocity))
      ensures position == old(position) && other.position == old(other.position)
      ensures mass * velocity + other.mass * other.velocity
           == mass * old(velocity) + other.mass * old(other.velocity)
      ensures mass * velocity * velocity + other.mass * other.velocity * other.velocity
           == mass * old(velocity) * old(velocity) + other.mass * old(other.velocity) * old(other.velocity)
    {
      var m1, m2 := mass, other.mass;
      var v1, v2 := velocity, other.velocity;
      other.UpdateV(ElasticV2(m1, m2, v1, v2));
      UpdateV(ElasticV1(m1, m2, v1, v2));
      MomentumConserved(m1, m2, v1, v2);
      EnergyConserved(m1, m2, v1, v2);
    }
  }
}
