/**
 One frame of the two-block demo as a function of the state before it: integrate
 both positions, answer an overlap with the elastic response, then reflect each
 block that is past a wall. Positions and velocities are reals; the screen width
 and the frame's time step are inputs of every frame.
 */
module Physics {
  import opened Aabb
  import opened Elastic

  /** The two masses; each block's side is ten times its mass. */
  datatype Config = Config(massA: real, massB: real) {
    predicate Valid() { massA > 0.0 && massB > 0.0 }
    function SideA(): real { massA * 10.0 }
    function SideB(): real { massB * 10.0 }
  }

  /** The four numbers the demo updates every frame. */
  datatype State = State(positionA: real, positionB: real, velocityA: real, velocityB: real)
  {
    function Velocities(): Elastic.Velocities { Elastic.Velocities(velocityA, velocityB) }
  }

  /** One callback of the ticker: the play flag, the time step and the screen width at that moment. */
  datatype Frame = Frame(playing: bool, delta: real, screenWidth: real)

  /** The masses the demo is written with. */
  const DemoMassA: real := 3.0
  const DemoMassB: real := 7.0
  /** The starting velocities of the demo. */
  const InitialVelocityA: real := 15.0
  const InitialVelocityB: real := -12.0

  function Demo(): (c: Config)
    ensures c.Valid() && c.SideA() == 30.0 && c.SideB() == 70.0
  {
    Config(DemoMassA, DemoMassB)
  }

  /** A against the left edge, B against the right edge, moving towards each other. */
  function Initial(c: Config, screenWidth: real): (s: State)
    ensures s.positionA == 0.0 && s.positionB + c.SideB() == screenWidth
    ensures s.velocityA == InitialVelocityA && s.velocityB == InitialVelocityB
  {
    State(0.0, screenWidth - c.SideB(), InitialVelocityA, InitialVelocityB)
  }

  /**
   On a screen at least as wide as both blocks together, the blocks start apart and
   inside the screen, so the first frame does not begin with a collision or a bounce.
   */
  lemma InitialLayout(c: Config, screenWidth: real)
    requires c.Valid() && screenWidth >= c.SideA() + c.SideB()
    ensures var s := Initial(c, screenWidth);
      && !Overlaps(Box(s.positionA, c.SideA()), Box(s.positionB, c.SideB()))
      && !OutOfBounds(Box(s.positionA, c.SideA()), screenWidth)
      && !OutOfBounds(Box(s.positionB, c.SideB()), screenWidth)
  {
  }

  /** Twice the kinetic energy of the pair. */
  function KineticEnergy(c: Config, s: State): real
  {
    Elastic.Energy(c.massA, c.massB, s.Velocities())
  }

  function TotalMomentum(c: Config, s: State): real
  {
    Elastic.Momentum(c.massA, c.massB, s.Velocities())
  }

  /** A block whose left edge is past `screenWidth - width` or left of zero. */
  predicate OutOfBounds(box: Box, screenWidth: real)
  {
    box.x > screenWidth - box.width || box.x < 0.0
  }

  /** Wall reflection of one block: the sign of its velocity flips. */
  function Reflect(box: Box, screenWidth: real, v: real): real
  {
    if OutOfBounds(box, screenWidth) then -v else v
  }

  /** Collision response: overlapping blocks get the elastic velocities. */
  function Respond(c: Config, boxA: Box, boxB: Box, v: Elastic.Velocities): Elastic.Velocities
    requires c.Valid()
  {
    if Overlaps(boxA, boxB) then Collide(c.massA, c.massB, v) else v
  }

  /** Where the blocks are once a frame of length `delta` has moved them. */
  function BoxA(c: Config, s: State, delta: real): Box
  {
    Box(s.positionA + s.velocityA * delta, c.SideA())
  }

  function BoxB(c: Config, s: State, delta: real): Box
  {
    Box(s.positionB + s.velocityB * delta, c.SideB())
  }

  /**
   One frame: integration, then the collision response on the moved blocks, then the
   wall test on the moved blocks with the velocities the response left.
   */
  function Step(c: Config, s: State, screenWidth: real, delta: real): State
    requires c.Valid()
  {
    var boxA, boxB := BoxA(c, s, delta), BoxB(c, s, delta);
    var v := Respond(c, boxA, boxB, s.Velocities());
    State(boxA.x, boxB.x, Reflect(boxA, screenWidth, v.a), Reflect(boxB, screenWidth, v.b))
  }

  /** A ticker callback: the frame is stepped only while the animation plays. */
  function Tick(c: Config, s: State, f: Frame): State
    requires c.Valid()
  {
    if f.playing then Step(c, s, f.screenWidth, f.delta) else s
  }

  /** The state after a sequence of ticker callbacks. */
  function Run(c: Config, s: State, frames: seq<Frame>): State
    requires c.Valid()
    decreases |frames|
  {
    if frames == [] then s
    else Run(c, Tick(c, s, frames[0]), frames[1..])
  }

  /** Wall reflection keeps the speed and changes the velocity exactly when the block is out. */
  lemma ReflectKeepsSpeed(box: Box, screenWidth: real, v: real)
    ensures Reflect(box, screenWidth, v) * Reflect(box, screenWidth, v) == v * v
    ensures v != 0.0 ==> (Reflect(box, screenWidth, v) != v <==> OutOfBounds(box, screenWidth))
  {
  }

  /** Neither the response nor the walls move a block: positions are never clamped. */
  lemma StepNeverClamps(c: Config, s: State, screenWidth: real, delta: real)
    requires c.Valid()
    ensures Step(c, s, screenWidth, delta).positionA == s.positionA + s.velocityA * delta
    ensures Step(c, s, screenWidth, delta).positionB == s.positionB + s.velocityB * delta
  {
  }

  /** Away from each other and from the walls, the blocks coast. */
  lemma StepFreeFlight(c: Config, s: State, screenWidth: real, delta: real)
    requires c.Valid()
    requires !Overlaps(BoxA(c, s, delta), BoxB(c, s, delta))
    requires !OutOfBounds(BoxA(c, s, delta), screenWidth)
    requires !OutOfBounds(BoxB(c, s, delta), screenWidth)
    ensures Step(c, s, screenWidth, delta)
         == State(s.positionA + s.velocityA * delta, s.positionB + s.velocityB * delta,
                  s.velocityA, s.velocityB)
  {
    var boxA, boxB := BoxA(c, s, delta), BoxB(c, s, delta);
    assert Respond(c, boxA, boxB, s.Velocities()) == s.Velocities();
    assert Reflect(boxA, screenWidth, s.velocityA) == s.velocityA;
    assert Reflect(boxB, screenWidth, s.velocityB) == s.velocityB;
  }

  /**
   On overlap the response uses the velocities from before the frame, and the wall
   test then flips the responded velocity of a block that is out.
   */
  lemma StepCollisionThenWalls(c: Config, s: State, screenWidth: real, delta: real)
    requires c.Valid()
    requires Overlaps(BoxA(c, s, delta), BoxB(c, s, delta))
    ensures var r, v := Step(c, s, screenWidth, delta), Collide(c.massA, c.massB, s.Velocities());
      && r.velocityA == (if OutOfBounds(BoxA(c, s, delta), screenWidth) then -v.a else v.a)
      && r.velocityB == (if OutOfBounds(BoxB(c, s, delta), screenWidth) then -v.b else v.b)
  {
  }

  /** Without an overlap, a block out of bounds reverses and the other keeps its velocity. */
  lemma StepWallWithoutCollision(c: Config, s: State, screenWidth: real, delta: real)
    requires c.Valid()
    requires !Overlaps(BoxA(c, s, delta), BoxB(c, s, delta))
    ensures var r := Step(c, s, screenWidth, delta);
      && (OutOfBounds(BoxA(c, s, delta), screenWidth) ==> r.velocityA == -s.velocityA)
      && (!OutOfBounds(BoxA(c, s, delta), screenWidth) ==> r.velocityA == s.velocityA)
      && (OutOfBounds(BoxB(c, s, delta), screenWidth) ==> r.velocityB == -s.velocityB)
      && (!OutOfBounds(BoxB(c, s, delta), screenWidth) ==> r.velocityB == s.velocityB)
  {
  }

  /** Every frame keeps the kinetic energy: the response is elastic and the walls only flip signs. */
  lemma StepConservesEnergy(c: Config, s: State, screenWidth: real, delta: real)
    requires c.Valid()
    ensures KineticEnergy(c, Step(c, s, screenWidth, delta)) == KineticEnergy(c, s)
  {
    var boxA, boxB := BoxA(c, s, delta), BoxB(c, s, delta);
    var v := Respond(c, boxA, boxB, s.Velocities());
    if Overlaps(boxA, boxB) {
      CollideConservesEnergy(c.massA, c.massB, s.Velocities());
    }
    ReflectKeepsSpeed(boxA, screenWidth, v.a);
    ReflectKeepsSpeed(boxB, screenWidth, v.b);
    EnergyOfSpeeds(c.massA, c.massB, v, Step(c, s, screenWidth, delta).Velocities());
  }

  /** The kinetic energy depends on the velocities only through their squares. */
  lemma EnergyOfSpeeds(massA: real, massB: real, v: Elastic.Velocities, w: Elastic.Velocities)
    requires w.a * w.a == v.a * v.a && w.b * w.b == v.b * v.b
    ensures Elastic.Energy(massA, massB, w) == Elastic.Energy(massA, massB, v)
  {
    calc {
      Elastic.Energy(massA, massB, w);
      massA * (w.a * w.a) + massB * (w.b * w.b);
      massA * (v.a * v.a) + massB * (v.b * v.b);
      Elastic.Energy(massA, massB, v);
    }
  }

  /** A frame in which no block touches a wall keeps the momentum. */
  lemma StepConservesMomentumAwayFromWalls(c: Config, s: State, screenWidth: real, delta: real)
    requires c.Valid()
    requires !OutOfBounds(BoxA(c, s, delta), screenWidth)
    requires !OutOfBounds(BoxB(c, s, delta), screenWidth)
    ensures TotalMomentum(c, Step(c, s, screenWidth, delta)) == TotalMomentum(c, s)
  {
  }

  /** A callback while paused changes nothing. */
  lemma TickPausedKeepsState(c: Config, s: State, f: Frame)
    requires c.Valid() && !f.playing
    ensures Tick(c, s, f) == s
  {
  }

  /** However many callbacks run, played or paused, the kinetic energy stays what it was. */
  lemma {:induction false} RunConservesEnergy(c: Config, s: State, frames: seq<Frame>)
    requires c.Valid()
    ensures KineticEnergy(c, Run(c, s, frames)) == KineticEnergy(c, s)
    decreases |frames|
  {
    if frames != [] {
      var next := Tick(c, s, frames[0]);
      if frames[0].playing {
        StepConservesEnergy(c, s, frames[0].screenWidth, frames[0].delta);
      }
      RunConservesEnergy(c, next, frames[1..]);
    }
  }

  /**
   The demo's first frame with a time step of 1 on a screen wide enough that the
   blocks neither meet nor reach a wall: A is at 15 and B at width - 70 - 12.
   */
  lemma DemoFirstFrame(screenWidth: real)
    requires screenWidth >= 127.0
    ensures Step(Demo(), Initial(Demo(), screenWidth), screenWidth, 1.0)
         == State(15.0, screenWidth - 82.0, 15.0, -12.0)
  {
  }
}
