/** The pure part of a particle's motion: where a free step lands, the four
    candidate collision times, the wall a bounce picks, and the whole chain
    of bounces one position update performs, bounded by a fuel count. The
    class methods in module System are proved against these functions. */
module Kinematics {

  /** The enclosure's fixed width; its height is a parameter. */
  const Width: real := 2500.0

  /** The kinematic state of one particle: position and velocity. */
  datatype Motion = Motion(x: real, y: real, vx: real, vy: real)

  /** The four walls, in the order of the candidate-time list: index 0 is the
      right wall (x = Width), 1 the left (x = 0), 2 the top (y = height),
      3 the bottom (y = 0). */
  datatype Wall = Right | Left | Top | Bottom

  /** What one position update does to a particle: the final motion, the
      walls it bounced off in order (one collision each), and whether the
      chain reached an in-bounds step within its fuel. */
  datatype Outcome = Outcome(motion: Motion, walls: seq<Wall>, finished: bool)

  function Abs(v: real): (r: real)
    ensures r >= 0.0 && (r == v || r == -v)
  {
    if v < 0.0 then -v else v
  }

  /** Inside the enclosure, walls included: the complement of the bounds
      test of a free step. */
  predicate InBounds(x: real, y: real, height: real)
  {
    0.0 <= x <= Width && 0.0 <= y <= height
  }

  /** Free flight for time t at constant velocity. */
  function Moved(m: Motion, t: real): (r: Motion)
  {
    m.(x := m.x + m.vx * t, y := m.y + m.vy * t)
  }

  /** A step of dt either lands in bounds or needs the collision times, which
      divide by both velocity components. */
  predicate Defined(m: Motion, height: real, dt: real)
  {
    var next := Moved(m, dt);
    InBounds(next.x, next.y, height) || (m.vx != 0.0 && m.vy != 0.0)
  }

  /** The four candidate times |dt - (boundary - coordinate) / v|, one per
      wall, in Wall order. */
  function CandidateTimes(m: Motion, height: real, dt: real): (ts: seq<real>)
    requires m.vx != 0.0 && m.vy != 0.0
    ensures |ts| == 4
  {
    [ Abs(dt - (Width - m.x) / m.vx),
      Abs(dt - (0.0 - m.x) / m.vx),
      Abs(dt - (height - m.y) / m.vy),
      Abs(dt - (0.0 - m.y) / m.vy) ]
  }

  /** Every candidate time is non-negative. */
  lemma CandidateTimesNonNegative(m: Motion, height: real, dt: real)
    requires m.vx != 0.0 && m.vy != 0.0
    ensures forall j :: 0 <= j < 4 ==> CandidateTimes(m, height, dt)[j] >= 0.0
  {
    var ts := CandidateTimes(m, height, dt);
    assert ts[0] >= 0.0 && ts[1] >= 0.0 && ts[2] >= 0.0 && ts[3] >= 0.0;
  }

  /** The smallest element of a non-empty list. */
  function Minimum(s: seq<real>): (r: real)
    requires |s| > 0
  {
    if |s| == 1 then s[0]
    else
      var rest := Minimum(s[1..]);
      if s[0] <= rest then s[0] else rest
  }

  /** Minimum returns an element of the list that no element is below. */
  lemma {:induction false} MinimumIsLeast(s: seq<real>)
    requires |s| > 0
    ensures Minimum(s) in s
    ensures forall j :: 0 <= j < |s| ==> Minimum(s) <= s[j]
  {
    if |s| > 1 {
      MinimumIsLeast(s[1..]);
      assert forall j :: 1 <= j < |s| ==> s[j] == s[1..][j - 1];
    }
  }

  /** The position of the first occurrence of v in s. */
  function FirstIndex(s: seq<real>, v: real): (i: nat)
    requires v in s
    ensures i < |s| && s[i] == v
  {
    if s[0] == v then 0 else 1 + FirstIndex(s[1..], v)
  }

  /** No element before FirstIndex(s, v) equals v. */
  lemma {:induction false} FirstIndexIsFirst(s: seq<real>, v: real)
    requires v in s
    ensures forall j :: 0 <= j < FirstIndex(s, v) ==> s[j] != v
  {
    if s[0] != v {
      FirstIndexIsFirst(s[1..], v);
      assert forall j :: 1 <= j < |s| ==> s[j] == s[1..][j - 1];
    }
  }

  /** The index the bounce uses: the first occurrence of the minimum. Every
      element before it is strictly larger, so ties go to the lower index. */
  lemma FirstMinimumIndex(s: seq<real>)
    requires |s| > 0
    ensures Minimum(s) in s
    ensures var i := FirstIndex(s, Minimum(s));
            (forall j :: 0 <= j < |s| ==> s[i] <= s[j]) &&
            (forall j :: 0 <= j < i ==> s[j] > s[i])
  {
    MinimumIsLeast(s);
    FirstIndexIsFirst(s, Minimum(s));
  }

  /** The wall at a position of the candidate-time list. */
  function WallAt(i: nat): (w: Wall)
    requires i < 4
    ensures (w == Right || w == Left) <==> i <= 1
  {
    if i == 0 then Right else if i == 1 then Left else if i == 2 then Top else Bottom
  }

  /** The time at which the bounce is placed: the minimum candidate time. */
  function CollisionTime(m: Motion, height: real, dt: real): (t: real)
    requires m.vx != 0.0 && m.vy != 0.0
  {
    Minimum(CandidateTimes(m, height, dt))
  }

  /** The wall the bounce reflects off: the one at the first index whose
      candidate time is the minimum. */
  function HitWall(m: Motion, height: real, dt: real): (w: Wall)
    requires m.vx != 0.0 && m.vy != 0.0
  {
    var ts := CandidateTimes(m, height, dt);
    MinimumIsLeast(ts);
    WallAt(FirstIndex(ts, Minimum(ts)))
  }

  /** The collision time is one of the candidate times, it is non-negative,
      and no candidate time is smaller. The wall hit is the one whose time it
      is; any wall earlier in the list has a strictly larger time, so a tie
      goes to the wall listed first. */
  lemma CollisionChoice(m: Motion, height: real, dt: real)
    requires m.vx != 0.0 && m.vy != 0.0
    ensures var ts := CandidateTimes(m, height, dt);
            var t := CollisionTime(m, height, dt);
            t >= 0.0 && (forall j :: 0 <= j < 4 ==> t <= ts[j]) &&
            exists i :: 0 <= i < 4 && ts[i] == t && HitWall(m, height, dt) == WallAt(i) &&
                        forall j :: 0 <= j < i ==> ts[j] > t
  {
    var ts := CandidateTimes(m, height, dt);
    CandidateTimesNonNegative(m, height, dt);
    FirstMinimumIndex(ts);
    var i := FirstIndex(ts, Minimum(ts));
    assert ts[i] == CollisionTime(m, height, dt) && HitWall(m, height, dt) == WallAt(i);
  }

  /** Reflection off a wall: a side wall reverses vx, the top or bottom
      reverses vy, and nothing else changes. */
  function Reflected(m: Motion, w: Wall): (r: Motion)
    ensures r.x == m.x && r.y == m.y
    ensures (w == Right || w == Left) ==> r.vx == -m.vx && r.vy == m.vy
    ensures (w == Top || w == Bottom) ==> r.vy == -m.vy && r.vx == m.vx
  {
    if w == Right || w == Left then m.(vx := -m.vx) else m.(vy := -m.vy)
  }

  /** One bounce from m: the motion after moving to the collision time and
      reflecting off the wall hit, and the time left for the rest of the
      update. The reflected velocity is still non-zero, so the rest of the
      update is defined. */
  function AfterBounce(m: Motion, height: real, dt: real): (r: (Motion, real))
    requires m.vx != 0.0 && m.vy != 0.0
    ensures r.0.vx != 0.0 && r.0.vy != 0.0
  {
    var t := CollisionTime(m, height, dt);
    (Reflected(Moved(m, t), HitWall(m, height, dt)), dt - t)
  }


  /** One bounce followed by the rest of the update: move to the collision
      time, reflect, record the wall, and advance the remaining time with at
      most fuel further bounces. */
  function Bounce(m: Motion, height: real, dt: real, fuel: nat): (r: Outcome)
    requires m.vx != 0.0 && m.vy != 0.0
    decreases fuel, 1
  {
    var (n, rest) := AfterBounce(m, height, dt);
    var o := Advance(n, height, rest, fuel);
    o.(walls := [HitWall(m, height, dt)] + o.walls)
  }

  /** One position update of dt with at most fuel bounces: an in-bounds free
      step is committed; otherwise the particle bounces from its pre-step
      position, or, with no fuel left, stays where it is unfinished. */
  function Advance(m: Motion, height: real, dt: real, fuel: nat): (r: Outcome)
    requires Defined(m, height, dt)
    decreases fuel, 0
  {
    var next := Moved(m, dt);
    if InBounds(next.x, next.y, height) then Outcome(next, [], true)
    else if fuel == 0 then Outcome(m, [], false)
    else Bounce(m, height, dt, fuel - 1)
  }

  /** If an update finishes, the particle ends inside the enclosure. */
  lemma {:induction false} AdvanceContained(m: Motion, height: real, dt: real, fuel: nat)
    requires Defined(m, height, dt)
    ensures var o := Advance(m, height, dt, fuel);
            o.finished ==> InBounds(o.motion.x, o.motion.y, height)
    decreases fuel
  {
    var next := Moved(m, dt);
    if !InBounds(next.x, next.y, height) && fuel > 0 {
      var (n, rest) := AfterBounce(m, height, dt);
      AdvanceContained(n, height, rest, fuel - 1);
    }
  }

  /** An update performs at most fuel bounces, and it is left unfinished only
      after using all of them. */
  lemma {:induction false} AdvanceBounceCount(m: Motion, height: real, dt: real, fuel: nat)
    requires Defined(m, height, dt)
    ensures var o := Advance(m, height, dt, fuel);
            |o.walls| <= fuel && (!o.finished ==> |o.walls| == fuel)
    decreases fuel
  {
    var next := Moved(m, dt);
    if !InBounds(next.x, next.y, height) && fuel > 0 {
      var (n, rest) := AfterBounce(m, height, dt);
      AdvanceBounceCount(n, height, rest, fuel - 1);
    }
  }

  /** A finished update does not depend on the fuel bound: any larger bound
      gives the same outcome. */
  lemma {:induction false} AdvanceFuelIrrelevant(m: Motion, height: real, dt: real, fuel: nat, more: nat)
    requires Defined(m, height, dt)
    requires Advance(m, height, dt, fuel).finished && fuel <= more
    ensures Advance(m, height, dt, more) == Advance(m, height, dt, fuel)
    decreases fuel
  {
    var next := Moved(m, dt);
    if !InBounds(next.x, next.y, height) {
      var (n, rest) := AfterBounce(m, height, dt);
      AdvanceFuelIrrelevant(n, height, rest, fuel - 1, more - 1);
    }
  }

  /** Number of side-wall (vx-reversing) bounces in a list of walls. */
  function SideHits(ws: seq<Wall>): (n: nat)
    ensures n <= |ws|
  {
    if ws == [] then 0
    else (if ws[0] == Right || ws[0] == Left then 1 else 0) + SideHits(ws[1..])
  }

  /** v after n sign reversals: v itself for an even n, -v for an odd one. */
  function Reversed(n: nat, v: real): (r: real)
    ensures r == v || r == -v
  {
    if n % 2 == 0 then v else -v
  }

  /** Bounces only reverse velocity components: vx is reversed once per
      side-wall bounce and vy once per top or bottom bounce, so both speeds
      |vx| and |vy| are kept. */
  lemma {:induction false} AdvanceVelocity(m: Motion, height: real, dt: real, fuel: nat)
    requires Defined(m, height, dt)
    ensures var o := Advance(m, height, dt, fuel);
            o.motion.vx == Reversed(SideHits(o.walls), m.vx) &&
            o.motion.vy == Reversed(|o.walls| - SideHits(o.walls), m.vy)
    decreases fuel, 0
  {
    var next := Moved(m, dt);
    if !InBounds(next.x, next.y, height) && fuel > 0 {
      BounceVelocity(m, height, dt, fuel - 1);
    }
  }

  /** The same for a chain that starts with a bounce: the first wall adds
      one reversal of vx or of vy. */
  lemma {:induction false} BounceVelocity(m: Motion, height: real, dt: real, fuel: nat)
    requires m.vx != 0.0 && m.vy != 0.0
    ensures var o := Bounce(m, height, dt, fuel);
            o.motion.vx == Reversed(SideHits(o.walls), m.vx) &&
            o.motion.vy == Reversed(|o.walls| - SideHits(o.walls), m.vy)
    decreases fuel, 1
  {
    var (n, rest) := AfterBounce(m, height, dt);
    var w := HitWall(m, height, dt);
    AdvanceVelocity(n, height, rest, fuel);
    var o := Advance(n, height, rest, fuel);
    assert Bounce(m, height, dt, fuel) == o.(walls := [w] + o.walls);
    PrependWall(w, o.walls, m, n, o.motion);
  }

  /** The parity law survives putting one more wall in front: if n is m
      reflected off w and f is n reversed per the walls ws, then f is m
      reversed per the walls [w] + ws. */
  lemma PrependWall(w: Wall, ws: seq<Wall>, m: Motion, n: Motion, f: Motion)
    requires (w == Right || w == Left) ==> n.vx == -m.vx && n.vy == m.vy
    requires (w == Top || w == Bottom) ==> n.vy == -m.vy && n.vx == m.vx
    requires f.vx == Reversed(SideHits(ws), n.vx) && f.vy == Reversed(|ws| - SideHits(ws), n.vy)
    ensures f.vx == Reversed(SideHits([w] + ws), m.vx)
    ensures f.vy == Reversed(|[w] + ws| - SideHits([w] + ws), m.vy)
  {
    assert ([w] + ws)[1..] == ws;
    var k := SideHits(ws);
    if w == Right || w == Left {
      assert SideHits([w] + ws) == k + 1;
      ReversedStep(k, m.vx);
    } else {
      assert SideHits([w] + ws) == k;
      ReversedStep(|ws| - k, m.vy);
    }
  }

  /** One more reversal of v is one fewer reversal of -v. */
  lemma ReversedStep(n: nat, v: real)
    ensures Reversed(n + 1, v) == Reversed(n, -v)
  {
  }

  /** Linear velocity rescaling by a temperature ratio; position unchanged. */
  function Rescaled(m: Motion, ratio: real): (r: Motion)
    ensures r.x == m.x && r.y == m.y
    ensures r.vx * r.vx + r.vy * r.vy == ratio * ratio * (m.vx * m.vx + m.vy * m.vy)
  {
    m.(vx := m.vx * ratio, vy := m.vy * ratio)
  }

  /** Two temperature changes compose: going from t0 to t1 and then to t2
      scales the velocity as going from t0 to t2 directly. */
  lemma RescaledCompose(m: Motion, t0: real, t1: real, t2: real)
    requires t0 != 0.0 && t1 != 0.0
    ensures Rescaled(Rescaled(m, t1 / t0), t2 / t1) == Rescaled(m, t2 / t0)
  {
    assert (t1 / t0) * (t2 / t1) == t2 / t0;
    assert m.vx * (t1 / t0) * (t2 / t1) == m.vx * ((t1 / t0) * (t2 / t1));
    assert m.vy * (t1 / t0) * (t2 / t1) == m.vy * ((t1 / t0) * (t2 / t1));
  }

  /** Changing the temperature and changing it back restores the velocity. */
  lemma RescaledRoundTrip(m: Motion, t0: real, t1: real)
    requires t0 != 0.0 && t1 != 0.0
    ensures Rescaled(Rescaled(m, t1 / t0), t0 / t1) == m
  {
    RescaledCompose(m, t0, t1, t0);
    assert t0 / t0 == 1.0;
  }

  /** The height fix-up: a particle above the new height is put on it with
      vy reversed; any other particle is left alone. */
  function ClampedToHeight(m: Motion, height: real): (r: Motion)
    ensures r.y <= height
    ensures r.x == m.x && r.vx == m.vx
    ensures m.y > height ==> r.y == height && r.vy == -m.vy
    ensures m.y <= height ==> r == m
  {
    if m.y > height then m.(y := height, vy := -m.vy) else m
  }

  /** A particle 100 units left of the right wall moving right at 200 with a
      slow upward drift, stepped by 1: the right-wall candidate time
      |1 - 100/200| = 0.5 happens to equal the free-flight time, so the
      particle reflects at the wall and comes back to x = 2400 with one
      collision. */
  lemma HalfStepScenario()
    ensures Advance(Motion(2400.0, 1000.0, 200.0, 1.0), 2500.0, 1.0, 1)
         == Outcome(Motion(2400.0, 1001.0, -200.0, 1.0), [Right], true)
  {
    var m := Motion(2400.0, 1000.0, 200.0, 1.0);
    assert CandidateTimes(m, 2500.0, 1.0) == [0.5, 13.0, 1499.0, 1001.0];
    assert HitWall(m, 2500.0, 1.0) == Right;
    assert AfterBounce(m, 2500.0, 1.0) == (Motion(2500.0, 1000.5, -200.0, 1.0), 0.5);
  }

  /** The same particle one unit from the right wall: the right-wall
      candidate time is |1 - 1/200| = 0.995 rather than the free-flight 0.005,
      which carries it past the wall to x = 2698; a second right-wall bounce
      with the 0.005 left ends at x = 2501 with -0.98 left, and that backwards
      step lands in bounds at (2305, 1001). Two collisions, and vx ends
      positive again. */
  lemma OvershootScenario()
    ensures Advance(Motion(2499.0, 1000.0, 200.0, 1.0), 2500.0, 1.0, 2)
         == Outcome(Motion(2305.0, 1001.0, 200.0, 1.0), [Right, Right], true)
  {
    var m := Motion(2499.0, 1000.0, 200.0, 1.0);
    assert CandidateTimes(m, 2500.0, 1.0) == [0.995, 13.495, 1499.0, 1001.0];
    assert HitWall(m, 2500.0, 1.0) == Right;
    var m1 := Motion(2698.0, 1000.995, -200.0, 1.0);
    assert AfterBounce(m, 2500.0, 1.0) == (m1, 0.005);
    assert CandidateTimes(m1, 2500.0, 0.005) == [0.985, 13.485, 1499.0, 1001.0];
    assert HitWall(m1, 2500.0, 0.005) == Right;
    assert AfterBounce(m1, 2500.0, 0.005) == (Motion(2501.0, 1001.98, 200.0, 1.0), -0.98);
  }
}
