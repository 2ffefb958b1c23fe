/** The simulation state: particles that move, bounce and are rescaled in
    place, and the enclosure that owns them, its height, its ambient
    temperature and its collision counter. */
module System {
  import opened Species
  import opened Kinematics

  /** One gas particle. Its species and colour never change; its position,
      velocity and temperature are updated in place. */
  class Particle {
    const element: Element
    const color: Color
    /** The enclosure the particle lives in: it supplies the current height
        and owns the collision counter the particle bumps. */
    const system: SystemState
    /** The particle's position in its enclosure's list. */
    ghost const slot: nat
    var temperature: real
    var xPosition: real
    var yPosition: real
    var vx: real
    var vy: real

    /** Position and velocity as a value. */
    function State(): Motion
      reads this`xPosition, this`yPosition, this`vx, this`vy
    {
      Motion(xPosition, yPosition, vx, vy)
    }

    /** A particle of the given species at the ambient temperature. The
        initial position and velocity are inputs: the random draws that
        produce them are not part of this model; the position draw lies in
        [0, Width) x [0, height). */
    constructor (element: Element, temperature: real, system: SystemState,
                 x: real, y: real, vx: real, vy: real, ghost slot: nat)
      requires 0.0 <= x < Width && 0.0 <= y < system.height
      ensures this.element == element && this.color == ColorOf(element)
      ensures this.system == system && this.slot == slot && this.temperature == temperature
      ensures State() == Motion(x, y, vx, vy)
      ensures InBounds(xPosition, yPosition, system.height)
    {
      this.element := element;
      this.temperature := temperature;
      this.color := ColorOf(element);
      this.system := system;
      this.slot := slot;
      this.xPosition := x;
      this.yPosition := y;
      this.vx := vx;
      this.vy := vy;
    }

    /** Takes on a new temperature and scales both velocity components by
        the ratio of the new to the old temperature. */
    method UpdateTemperature(t: real)
      requires temperature != 0.0
      modifies this`temperature, this`vx, this`vy
      ensures temperature == t
      ensures State() == Rescaled(old(State()), t / old(temperature))
    {
      var ratio := t / temperature;
      temperature := t;
      vx := vx * ratio;
      vy := vy * ratio;
    }

    /** Advances the particle by dt: an in-bounds free step is committed,
        otherwise the bounce step takes over from the pre-step position.
        At most fuel bounces are performed; finished says whether the chain
        ended with an in-bounds step. */
    method UpdatePosition(dt: real, fuel: nat) returns (finished: bool)
      requires Defined(State(), system.height, dt)
      modifies this`xPosition, this`yPosition, this`vx, this`vy, system`collisions
      ensures var o := Advance(old(State()), system.height, dt, fuel);
              State() == o.motion && finished == o.finished &&
              system.collisions == old(system.collisions) + |o.walls|
      ensures finished ==> InBounds(xPosition, yPosition, system.height)
      ensures InBounds(old(xPosition + vx * dt), old(yPosition + vy * dt), system.height) ==>
                State() == old(Moved(State(), dt)) && system.collisions == old(system.collisions)
      decreases fuel, 0
    {
      ghost var start := State();
      var oldX := xPosition;
      var oldY := yPosition;
      var newX := oldX + vx * dt;
      var newY := oldY + vy * dt;
      assert Moved(start, dt) == Motion(newX, newY, vx, vy);
      if newX < 0.0 || newX > Width || newY < 0.0 || newY > system.height {
        if fuel == 0 {
          finished := false;
        } else {
          finished := HandleCollision(oldX, oldY, dt, fuel - 1);
        }
      } else {
        xPosition := newX;
        yPosition := newY;
        finished := true;
      }
      AdvanceContained(start, system.height, dt, fuel);
    }

    /** The bounce step from (x, y): moves to the smallest of the four
        candidate times, reverses vx for a side wall (index 0 or 1) and vy
        otherwise, counts one collision, and continues with the time left. */
    method HandleCollision(x: real, y: real, dt: real, fuel: nat) returns (finished: bool)
      requires vx != 0.0 && vy != 0.0
      modifies this`xPosition, this`yPosition, this`vx, this`vy, system`collisions
      ensures var o := Bounce(Motion(x, y, old(vx), old(vy)), system.height, dt, fuel);
              State() == o.motion && finished == o.finished &&
              system.collisions == old(system.collisions) + |o.walls|
      ensures system.collisions > old(system.collisions)
      decreases fuel, 1
    {
      var (next, rest) := AfterBounce(Motion(x, y, vx, vy), system.height, dt);
      xPosition, yPosition, vx, vy := next.x, next.y, next.vx, next.vy;
      system.IncrementCollisions();
      finished := UpdatePosition(rest, fuel);
    }
  }

  /** The number of bounces one update performs on the first n particles of
      ps, each from its current motion. */
  ghost function ParticleBounces(ps: seq<Particle>, n: nat, height: real, dt: real, fuel: nat): (total: nat)
    requires n <= |ps|
    requires forall i :: 0 <= i < n ==> Defined(ps[i].State(), height, dt)
    reads ps
  {
    if n == 0 then 0 else ParticleBounces(ps, n - 1, height, dt, fuel) + |Advance(ps[n - 1].State(), height, dt, fuel).walls|
  }

  /** One update of n particles counts at most fuel collisions per particle. */
  lemma {:induction false} ParticleBouncesBound(ps: seq<Particle>, n: nat, height: real, dt: real, fuel: nat)
    requires n <= |ps|
    requires forall i :: 0 <= i < n ==> Defined(ps[i].State(), height, dt)
    ensures ParticleBounces(ps, n, height, dt, fuel) <= n * fuel
    decreases n
  {
    if n > 0 {
      ParticleBouncesBound(ps, n - 1, height, dt, fuel);
      var m := ps[n - 1].State();
      AdvanceBounceCount(m, height, dt, fuel);
      assert ParticleBounces(ps, n, height, dt, fuel)
          == ParticleBounces(ps, n - 1, height, dt, fuel) + |Advance(m, height, dt, fuel).walls|;
      assert (n - 1) * fuel + fuel == n * fuel;
    }
  }

  /** The enclosure: fixed width, mutable height, ambient temperature, the
      particles in insertion order, and the collision counter. */
  class SystemState {
    var temperature: real
    var height: real
    var particles: seq<Particle>
    var collisions: nat
    /** The particles, as a set. */
    ghost var Repr: set<Particle>

    /** Every particle belongs to this enclosure and knows its own position
        in the list, so the particles are distinct objects; Repr holds
        exactly the particles. */
    ghost predicate Valid()
      reads this
    {
      (forall i :: 0 <= i < |particles| ==>
         particles[i] in Repr && particles[i].system == this && particles[i].slot == i) &&
      (forall p :: p in Repr ==> p.slot < |particles| && particles[p.slot] == p)
    }

    /** Every particle carries the ambient temperature. */
    ghost predicate Synced()
      reads this, particles
    {
      forall i :: 0 <= i < |particles| ==> particles[i].temperature == temperature
    }

    /** Every particle lies inside the enclosure. */
    ghost predicate Contained()
      reads this, particles
    {
      forall i :: 0 <= i < |particles| ==>
        InBounds(particles[i].xPosition, particles[i].yPosition, height)
    }

    /** An empty enclosure at 300 K, 2500 high, with no collisions counted. */
    constructor ()
      ensures temperature == 300.0 && height == 2500.0
      ensures particles == [] && collisions == 0
      ensures Valid() && Synced() && Contained()
    {
      temperature := 300.0;
      height := 2500.0;
      particles := [];
      collisions := 0;
      Repr := {};
    }

    /** Appends one new particle of the given species at the ambient
        temperature; the particles already there are not touched. */
    method AddParticle(element: Element, x: real, y: real, vx: real, vy: real)
      requires Valid()
      requires 0.0 <= x < Width && 0.0 <= y < height
      modifies this`particles, this`Repr
      ensures Valid()
      ensures |particles| == |old(particles)| + 1
      ensures particles[..|old(particles)|] == old(particles)
      ensures var p := particles[|particles| - 1];
              fresh(p) && p.element == element && p.color == ColorOf(element) &&
              p.temperature == temperature && p.State() == Motion(x, y, vx, vy)
      ensures forall i :: 0 <= i < |old(particles)| ==> particles[i].State() == old(particles[i].State())
      ensures temperature == old(temperature) && height == old(height) && collisions == old(collisions)
      ensures old(Synced()) ==> Synced()
      ensures old(Contained()) ==> Contained()
    {
      var p := new Particle(element, temperature, this, x, y, vx, vy, |particles|);
      particles := particles + [p];
      Repr := Repr + {p};
    }

    /** Sets the ambient temperature and rescales every particle to it. */
    method UpdateTemperatures(t: real)
      requires Valid()
      requires forall i :: 0 <= i < |particles| ==> particles[i].temperature != 0.0
      modifies this`temperature, Repr
      ensures Valid() && particles == old(particles) && Repr == old(Repr)
      ensures temperature == t && Synced()
      ensures forall i :: 0 <= i < |particles| ==>
                particles[i].State() == Rescaled(old(particles[i].State()), t / old(particles[i].temperature))
      ensures height == old(height) && collisions == old(collisions)
      ensures old(Contained()) ==> Contained()
    {
      temperature := t;
      for i := 0 to |particles|
        modifies Repr
        invariant forall k :: 0 <= k < i ==> particles[k].temperature == t
        invariant forall k :: 0 <= k < i ==>
                    particles[k].State() == Rescaled(old(particles[k].State()), t / old(particles[k].temperature))
        invariant forall k :: i <= k < |particles| ==>
                    particles[k].temperature == old(particles[k].temperature) &&
                    particles[k].State() == old(particles[k].State())
      {
        particles[i].UpdateTemperature(t);
      }
    }

    /** Advances every particle by the same dt, at most fuel bounces each.
        The counter rises by the total number of bounces, and every
        particle whose chain ended with an in-bounds step is inside the
        enclosure. */
    method UpdatePositions(dt: real, fuel: nat)
      requires Valid()
      requires forall i :: 0 <= i < |particles| ==> Defined(particles[i].State(), height, dt)
      modifies Repr, this`collisions
      ensures Valid() && particles == old(particles) && Repr == old(Repr)
      ensures forall i :: 0 <= i < |particles| ==>
                particles[i].State() == Advance(old(particles[i].State()), height, dt, fuel).motion &&
                particles[i].temperature == old(particles[i].temperature)
      ensures collisions == old(collisions) + old(ParticleBounces(particles, |particles|, height, dt, fuel))
      ensures forall i :: 0 <= i < |particles| && Advance(old(particles[i].State()), height, dt, fuel).finished ==>
                InBounds(particles[i].xPosition, particles[i].yPosition, height)
      ensures temperature == old(temperature) && height == old(height)
    {
      for i := 0 to |particles|
        modifies Repr, this`collisions
        invariant forall k :: 0 <= k < |particles| ==>
                    particles[k].temperature == old(particles[k].temperature) &&
                    particles[k].State() == (if k < i then Advance(old(particles[k].State()), height, dt, fuel).motion
                                             else old(particles[k].State())) &&
                    (k < i && Advance(old(particles[k].State()), height, dt, fuel).finished ==>
                       InBounds(particles[k].xPosition, particles[k].yPosition, height))
        invariant collisions == old(collisions) + old(ParticleBounces(particles, i, height, dt, fuel))
      {
        var done := particles[i].UpdatePosition(dt, fuel);
      }
    }

    /** Counts one wall collision. */
    method IncrementCollisions()
      modifies this`collisions
      ensures collisions == old(collisions) + 1
    {
      collisions := collisions + 1;
    }

    /** Sets the height and puts every particle above it on it with vy
        reversed. No collision is counted and no other particle changes. */
    method UpdateHeight(h: real)
      requires Valid()
      modifies this`height, Repr
      ensures Valid() && particles == old(particles) && Repr == old(Repr)
      ensures height == h
      ensures forall i :: 0 <= i < |particles| ==>
                particles[i].State() == ClampedToHeight(old(particles[i].State()), h) &&
                particles[i].temperature == old(particles[i].temperature)
      ensures forall i :: 0 <= i < |particles| ==> particles[i].yPosition <= h
      ensures temperature == old(temperature) && collisions == old(collisions)
      ensures old(Synced()) ==> Synced()
      ensures old(Contained()) && h >= 0.0 ==> Contained()
    {
      height := h;
      for i := 0 to |particles|
        modifies Repr
        invariant forall k :: 0 <= k < i ==> particles[k].State() == ClampedToHeight(old(particles[k].State()), h)
        invariant forall k :: i <= k < |particles| ==> particles[k].State() == old(particles[k].State())
        invariant forall k :: 0 <= k < |particles| ==> particles[k].temperature == old(particles[k].temperature)
      {
        var p := particles[i];
        if p.yPosition > h {
          p.yPosition := h;
          p.vy := -p.vy;
        }
      }
    }
  }
}
