/**
 The velocity response of the demo when the two blocks overlap: the textbook
 one-dimensional, perfectly elastic collision of two bodies. Both new velocities
 are computed from the velocities before the collision.
 */
module Elastic {

  /** The pair of velocities (block A, block B). */
  datatype Velocities = Velocities(a: real, b: real)

  /** Total momentum of the two blocks. */
  function Momentum(massA: real, massB: real, v: Velocities): real
  {
    massA * v.a + massB * v.b
  }

  /** Twice the total kinetic energy of the two blocks (the factor 1/2 is dropped). */
  function Energy(massA: real, massB: real, v: Velocities): real
  {
    massA * v.a * v.a + massB * v.b * v.b
  }

  /**
   The collision response: both new velocities from the old pair, at once.
   The only division is by the total mass.
   */
  function Collide(massA: real, massB: real, v: Velocities): (r: Velocities)
    requires massA + massB != 0.0
    ensures (r.a - r.b) == -(v.a - v.b)
    ensures Momentum(massA, massB, r) == Momentum(massA, massB, v)
  {
    var total := massA + massB;
    var r := Velocities(((massA - massB) * v.a + 2.0 * massB * v.b) / total,
                        ((massB - massA) * v.b + 2.0 * massA * v.a) / total);
    CollideScaled(massA, massB, v, r);
    r
  }

  /**
   The defining equations of `r` multiplied through by the total mass imply that the
   relative velocity is reversed and that momentum is kept.
   */
  lemma CollideScaled(massA: real, massB: real, v: Velocities, r: Velocities)
    requires massA + massB != 0.0
    requires r.a * (massA + massB) == (massA - massB) * v.a + 2.0 * massB * v.b
    requires r.b * (massA + massB) == (massB - massA) * v.b + 2.0 * massA * v.a
    ensures (r.a - r.b) == -(v.a - v.b)
    ensures Momentum(massA, massB, r) == Momentum(massA, massB, v)
  {
    var total := massA + massB;
    assert (r.a - r.b) * total == -(v.a - v.b) * total;
    assert Momentum(massA, massB, r) * total == Momentum(massA, massB, v) * total by {
      calc {
        Momentum(massA, massB, r) * total;
        massA * (r.a * total) + massB * (r.b * total);
        massA * ((massA - massB) * v.a + 2.0 * massB * v.b)
          + massB * ((massB - massA) * v.b + 2.0 * massA * v.a);
        (massA * massA + massA * massB) * v.a + (massB * massB + massA * massB) * v.b;
        Momentum(massA, massB, v) * total;
      }
    }
  }

  /** The collision response keeps the kinetic energy of the pair. */
  lemma CollideConservesEnergy(massA: real, massB: real, v: Velocities)
    requires massA + massB != 0.0
    ensures Energy(massA, massB, Collide(massA, massB, v)) == Energy(massA, massB, v)
  {
    var r := Collide(massA, massB, v);
    // Momentum gives massA * (r.a - v.a) == -massB * (r.b - v.b), and the reversed
    // relative velocity gives r.a + v.a == r.b + v.b.
    var da := r.a - v.a;
    assert massB * (r.b - v.b) == -massA * da;
    assert r.b + v.b == r.a + v.a;
    calc {
      Energy(massA, massB, r) - Energy(massA, massB, v);
      massA * (r.a - v.a) * (r.a + v.a) + massB * (r.b - v.b) * (r.b + v.b);
      massA * da * (r.a + v.a) + (-massA * da) * (r.a + v.a);
      0.0;
    }
  }

  /** Blocks of equal mass exchange their velocities. */
  lemma CollideEqualMassesSwap(mass: real, v: Velocities)
    requires mass != 0.0
    ensures Collide(mass, mass, v) == Velocities(v.b, v.a)
  {
    var r := Collide(mass, mass, v);
    assert r.a * (mass + mass) == v.b * (mass + mass);
    assert r.b * (mass + mass) == v.a * (mass + mass);
  }

  /**
   The total momentum and the relative velocity fix a pair of velocities: two pairs
   that agree on both are equal.
   */
  lemma MomentumAndRelativeVelocityDetermine(massA: real, massB: real, x: Velocities, y: Velocities)
    requires massA + massB != 0.0
    requires Momentum(massA, massB, x) == Momentum(massA, massB, y)
    requires x.a - x.b == y.a - y.b
    ensures x == y
  {
    // Substituting x.a == x.b + d in the momentum leaves (massA + massB) * x.b.
    var d := x.a - x.b;
    assert (massA + massB) * x.b + massA * d == (massA + massB) * y.b + massA * d;
    assert x.b == y.b;
  }

  /**
   The response is its own inverse: colliding the outgoing velocities gives back the
   incoming ones.
   */
  lemma CollideInvolution(massA: real, massB: real, v: Velocities)
    requires massA + massB != 0.0
    ensures Collide(massA, massB, Collide(massA, massB, v)) == v
  {
    var r := Collide(massA, massB, v);
    MomentumAndRelativeVelocityDetermine(massA, massB, Collide(massA, massB, r), v);
  }

  /**
   Keeping both momentum and energy with positive masses leaves two possibilities:
   block A's velocity does not change, or the sum of old and new velocity is the
   same for both blocks.
   */
  lemma ConservedChange(massA: real, massB: real, v: Velocities, w: Velocities)
    requires massA > 0.0 && massB > 0.0
    requires Momentum(massA, massB, w) == Momentum(massA, massB, v)
    requires Energy(massA, massB, w) == Energy(massA, massB, v)
    ensures w.a == v.a || w.a + v.a == w.b + v.b
  {
    var da, db := w.a - v.a, w.b - v.b;
    assert massA * da == -massB * db;
    assert massA * da * (w.a + v.a) + massB * db * (w.b + v.b) == 0.0 by {
      calc {
        massA * da * (w.a + v.a) + massB * db * (w.b + v.b);
        Energy(massA, massB, w) - Energy(massA, massB, v);
        0.0;
      }
    }
    if da != 0.0 {
      // Replace massB * db by -massA * da, then cancel massA * da.
      assert massA * da * (w.a + v.a) - massA * da * (w.b + v.b) == 0.0;
      assert massA * da * ((w.a + v.a) - (w.b + v.b)) == 0.0;
    }
  }

  /**
   For positive masses the response is the only change of velocities that keeps both
   momentum and kinetic energy: any other pair with the same momentum and energy is
   the incoming pair itself.
   */
  lemma CollideUnique(massA: real, massB: real, v: Velocities, w: Velocities)
    requires massA > 0.0 && massB > 0.0
    requires Momentum(massA, massB, w) == Momentum(massA, massB, v)
    requires Energy(massA, massB, w) == Energy(massA, massB, v)
    ensures w == v || w == Collide(massA, massB, v)
  {
    ConservedChange(massA, massB, v, w);
    if w.a == v.a {
      assert massB * w.b == massB * v.b;
    } else {
      MomentumAndRelativeVelocityDetermine(massA, massB, w, Collide(massA, massB, v));
    }
  }

  /**
   Blocks that approach each other (A faster to the right than B) move apart after
   the response, with the same closing speed.
   */
  lemma ApproachingBlocksSeparate(massA: real, massB: real, v: Velocities)
    requires massA + massB != 0.0
    requires v.a > v.b
    ensures Collide(massA, massB, v).a < Collide(massA, massB, v).b
    ensures Collide(massA, massB, v).b - Collide(massA, massB, v).a == v.a - v.b
  {
  }

  /** The demo's blocks (3 kg and 7 kg, 15 and -12) after their first collision. */
  lemma DemoCollision()
    ensures Collide(3.0, 7.0, Velocities(15.0, -12.0)) == Velocities(-22.8, 4.2)
  {
  }
}
