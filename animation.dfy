/**
 The demo's mutable state: the two positions, the two velocities and the play/pause
 flag, updated in place by the ticker callback and the two buttons. The pure
 description of a frame is `Physics.Step`.
 */
module Animation {
  import opened Aabb
  import Elastic
  import Physics

  class Simulation {
    const massA: real
    const massB: real
    const sideA: real
    const sideB: real

    var positionA: real
    var positionB: real
    var velocityA: real
    var velocityB: real
    var isPlaying: bool

    /** Positive masses; each side is ten times its mass. */
    ghost predicate Valid()
    {
      massA > 0.0 && massB > 0.0 && sideA == massA * 10.0 && sideB == massB * 10.0
    }

    function Config(): Physics.Config
    {
      Physics.Config(massA, massB)
    }

    /** The physics state the frames update. */
    function State(): Physics.State
      reads this
    {
      Physics.State(positionA, positionB, velocityA, velocityB)
    }

    /** The demo starts playing from `Physics.Initial` on a screen of the given width. */
    constructor (massA: real, massB: real, screenWidth: real)
      requires massA > 0.0 && massB > 0.0
      ensures Valid() && this.massA == massA && this.massB == massB
      ensures State() == Physics.Initial(Config(), screenWidth)
      ensures isPlaying
    {
      this.massA, this.massB := massA, massB;
      sideA, sideB := massA * 10.0, massB * 10.0;
      velocityA, velocityB := Physics.InitialVelocityA, Physics.InitialVelocityB;
      positionA := 0.0;
      positionB := screenWidth - massB * 10.0;
      isPlaying := true;
    }

    /**
     One frame, in place: move both blocks, answer an overlap with the elastic
     response computed from the velocities before it, then flip the velocity of each
     block that is past a wall.
     */
    method UpdateAnimation(delta: real, screenWidth: real)
      requires Valid()
      modifies this`positionA, this`positionB, this`velocityA, this`velocityB
      ensures State() == Physics.Step(Config(), old(State()), screenWidth, delta)
    {
      ghost var before := State();
      positionA := positionA + velocityA * delta;
      positionB := positionB + velocityB * delta;
      assert Box(positionA, sideA) == Physics.BoxA(Config(), before, delta);
      assert Box(positionB, sideB) == Physics.BoxB(Config(), before, delta);

      if Overlaps(Box(positionA, sideA), Box(positionB, sideB)) {
        var newVelocityA := ((massA - massB) * velocityA + 2.0 * massB * velocityB) / (massA + massB);
        var newVelocityB := ((massB - massA) * velocityB + 2.0 * massA * velocityA) / (massA + massB);
        assert Elastic.Velocities(newVelocityA, newVelocityB)
            == Elastic.Collide(massA, massB, before.Velocities());
        velocityA := newVelocityA;
        velocityB := newVelocityB;
      }
      assert Elastic.Velocities(velocityA, velocityB)
          == Physics.Respond(Config(), Physics.BoxA(Config(), before, delta),
                             Physics.BoxB(Config(), before, delta), before.Velocities());

      if positionA > screenWidth - sideA || positionA < 0.0 {
        velocityA := -velocityA;
      }

      if positionB > screenWidth - sideB || positionB < 0.0 {
        velocityB := -velocityB;
      }
    }

    /** The ticker callback: a frame is stepped only while playing. */
    method Tick(delta: real, screenWidth: real)
      requires Valid()
      modifies this`positionA, this`positionB, this`velocityA, this`velocityB
      ensures State() == Physics.Tick(Config(), old(State()), Physics.Frame(isPlaying, delta, screenWidth))
      ensures Physics.KineticEnergy(Config(), State()) == Physics.KineticEnergy(Config(), old(State()))
    {
      if isPlaying {
        UpdateAnimation(delta, screenWidth);
        Physics.StepConservesEnergy(Config(), old(State()), screenWidth, delta);
      }
    }

    /** The play button: frames are stepped again; the physics state is untouched. */
    method PlayAnimation()
      modifies this`isPlaying
      ensures isPlaying
    {
      isPlaying := true;
    }

    /** The pause button: no frame is stepped until play; the physics state is untouched. */
    method PauseAnimation()
      modifies this`isPlaying
      ensures !isPlaying
    {
      isPlaying := false;
    }
  }
}
