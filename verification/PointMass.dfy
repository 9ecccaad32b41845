/** The point-mass simulator: a discrete dynamical system over the reals, driven by arbitrary
    commands at arbitrary tick lengths. Positions are north, east, down. */
module PointMass {

  // ---------------------------------------------------------------- saturation and wrapping

  function Sat(x: real, limit: real): (r: real)
    ensures limit >= 0.0 ==> -limit <= r <= limit
    ensures -limit <= x <= limit ==> r == x
  {
    if x > limit then limit else if x < -limit then -limit else x
  }

  lemma Quotient(a: real, p: real, q: real)
    requires p > 0.0 && q * p == a
    ensures a / p == q
  {
  }

  lemma QuotientShift(a: real, p: real)
    requires p > 0.0
    ensures (a - 2.0 * p) / p == a / p - 2.0
    ensures (2.0 * p - a) / p == 2.0 - a / p
  {
    var q := a / p;
    assert q * p == a;
    assert (q - 2.0) * p == a - 2.0 * p;
    assert (2.0 - q) * p == 2.0 * p - a;
    Quotient(a - 2.0 * p, p, q - 2.0);
    Quotient(2.0 * p - a, p, 2.0 - q);
  }

  lemma AboveOne(a: real, p: real)
    requires p > 0.0
    ensures a > p <==> a / p > 1.0
  {
  }

  /** Taking one turn off an angle beyond half a turn brings it closer to zero. */
  lemma TurnOff(size: real, pi: real)
    requires pi > 0.0 && size > pi
    ensures Measure(size - 2.0 * pi, pi) < Measure(size, pi)
    ensures Measure(2.0 * pi - size, pi) < Measure(size, pi)
  {
    QuotientShift(size, pi);
    AboveOne(size, pi);
  }

  lemma MeasureEven(yaw: real, pi: real)
    requires pi > 0.0
    ensures Measure(-yaw, pi) == Measure(yaw, pi)
  {
  }

  lemma TurnsDrop(yaw: real, pi: real)
    requires pi > 0.0
    ensures yaw > pi ==> Measure(yaw - 2.0 * pi, pi) < Measure(yaw, pi)
    ensures yaw < -pi ==> Measure(yaw + 2.0 * pi, pi) < Measure(yaw, pi)
  {
    MeasureEven(yaw, pi);
    if yaw > pi { TurnOff(yaw, pi); }
    if yaw < -pi {
      TurnOff(-yaw, pi);
      assert 2.0 * pi - (-yaw) == yaw + 2.0 * pi;
    }
  }

  /** Half turns away from zero, rounded up: drops with every full turn taken off. */
  function Measure(yaw: real, pi: real): nat
    requires pi > 0.0
  {
    var x := (if yaw < 0.0 then -yaw else yaw) / pi;
    if x <= 1.0 then 0 else x.Floor + 1
  }

  /** `yawSat`: full turns are taken off until the angle lies in [-pi, pi]. */
  function YawSat(yaw: real, pi: real): (r: real)
    requires pi > 0.0
    ensures -pi <= r <= pi
    ensures -pi <= yaw <= pi ==> r == yaw
    decreases Measure(yaw, pi)
  {
    TurnsDrop(yaw, pi);
    if yaw > pi then YawSat(yaw - 2.0 * pi, pi)
    else if yaw < -pi then YawSat(yaw + 2.0 * pi, pi)
    else yaw
  }

  /** `n` whole turns. */
  function Turns(n: int, pi: real): real {
    2.0 * pi * n as real
  }

  lemma TurnMore(n: int, pi: real)
    ensures Turns(n - 1, pi) == Turns(n, pi) - 2.0 * pi
    ensures Turns(n + 1, pi) == Turns(n, pi) + 2.0 * pi
    ensures Turns(0, pi) == 0.0
  {
  }

  /** The wrapped angle is the same direction: it differs by whole turns. */
  lemma {:induction false} YawSatIsCongruent(yaw: real, pi: real) returns (k: int)
    requires pi > 0.0
    ensures YawSat(yaw, pi) == yaw + Turns(k, pi)
    decreases Measure(yaw, pi)
  {
    hide Turns, Measure;
    TurnsDrop(yaw, pi);
    var n := 0;
    if yaw > pi {
      n := YawSatIsCongruent(yaw - 2.0 * pi, pi);
      k := n - 1;
    } else if yaw < -pi {
      n := YawSatIsCongruent(yaw + 2.0 * pi, pi);
      k := n + 1;
    } else {
      k := 0;
    }
    TurnMore(n, pi);
  }

  // ---------------------------------------------------------------- one tick

  datatype Vec = Vec(x: real, y: real, z: real)

  datatype State = State(pos: Vec, vel: Vec, yawRate: real, yaw: real)

  /** What the controlling program has set when a tick starts. `c` and `s` stand for cosine
      and sine of the current yaw; `UnitPair(c, s)` is assumed where that matters. */
  datatype Command = Command(
    speedMode: bool, positionMode: bool, bodyFrame: bool,
    vel: Vec, pos: Vec, yaw: real, yawRate: real, maxSpeed: real, c: real, s: real)

  /** From the body frame to the earth frame, as the program writes it: with two plus signs,
      where a rotation has one minus sign. */
  function Rotate(v: Vec, c: real, s: real): Vec {
    Vec(v.x * c + v.y * s, v.x * s + v.y * c, v.z)
  }

  ghost predicate UnitPair(c: real, s: real) {
    c * c + s * s == 1.0
  }

  /** Squared horizontal length. */
  function Horizontal(v: Vec): real {
    v.x * v.x + v.y * v.y
  }

  lemma SquareOfSum(a: real, b: real)
    ensures (a + b) * (a + b) == a * a + b * b + 2.0 * (a * b)
  {
  }

  /** What the two plus signs do to the length: it changes by four times the product of the two
      components, cosine and sine. */
  lemma RotatedLength(v: Vec, c: real, s: real)
    requires UnitPair(c, s)
    ensures Horizontal(Rotate(v, c, s)) == Horizontal(v) + 4.0 * (v.x * v.y * c * s)
  {
    SquareOfSum(v.x * c, v.y * s);
    SquareOfSum(v.x * s, v.y * c);
    assert (v.x * c) * (v.x * c) + (v.x * s) * (v.x * s) == (v.x * v.x) * (c * c + s * s);
    assert (v.y * s) * (v.y * s) + (v.y * c) * (v.y * c) == (v.y * v.y) * (c * c + s * s);
    assert (v.x * c) * (v.y * s) == v.x * v.y * c * s && (v.x * s) * (v.y * c) == v.x * v.y * c * s;
  }

  /** It keeps the length exactly if the vector lies along a body axis or the yaw is a multiple
      of a quarter turn. */
  lemma RotateKeepsLength(v: Vec, c: real, s: real)
    requires UnitPair(c, s)
    ensures Horizontal(Rotate(v, c, s)) == Horizontal(v)
            <==> v.x == 0.0 || v.y == 0.0 || c == 0.0 || s == 0.0
    ensures Horizontal(Rotate(v, c, s)) == Horizontal(v) <==> v.x * v.y * c * s == 0.0
  {
    RotatedLength(v, c, s);
    NonZeroProduct(v.x, v.y);
    NonZeroProduct(v.x * v.y, c);
    NonZeroProduct(v.x * v.y * c, s);
  }

  lemma NonZeroProduct(a: real, b: real)
    ensures a * b == 0.0 <==> a == 0.0 || b == 0.0
  {
  }

  /** A vector and a yaw for which it does not. */
  lemma RotateStretches()
    ensures UnitPair(0.6, 0.8)
    ensures Rotate(Vec(1.0, 1.0, 0.0), 0.6, 0.8) == Vec(1.4, 1.4, 0.0)
    ensures Horizontal(Rotate(Vec(1.0, 1.0, 0.0), 0.6, 0.8)) == 3.92 && Horizontal(Vec(1.0, 1.0, 0.0)) == 2.0
  {
  }

  /** The rotation by the same angle. */
  function TrueRotation(v: Vec, c: real, s: real): Vec {
    Vec(v.x * c - v.y * s, v.x * s + v.y * c, v.z)
  }

  /** The program's map is the rotation exactly if the sideways component or the sine is zero. */
  lemma RotateIsRotation(v: Vec, c: real, s: real)
    ensures Rotate(v, c, s) == TrueRotation(v, c, s) <==> v.y == 0.0 || s == 0.0
  {
    NonZeroProduct(v.y, s);
  }

  /** Velocity towards a target position. */
  function Approach(target: Vec, pos: Vec, maxSpeed: real): Vec {
    Vec(Sat((target.x - pos.x) * 0.5, maxSpeed), Sat((target.y - pos.y) * 0.5, maxSpeed),
        Sat((target.z - pos.z) * 0.5, maxSpeed))
  }

  /** Desired velocity, before any rotation into the earth frame. */
  function WantedVelocity(st: State, cmd: Command): Vec {
    if cmd.speedMode then cmd.vel
    else if cmd.positionMode then
      var target := if cmd.bodyFrame then Rotate(cmd.pos, cmd.c, cmd.s) else cmd.pos;
      Approach(target, st.pos, cmd.maxSpeed)
    else Vec(0.0, 0.0, 0.0)
  }

  function WantedYawRate(st: State, cmd: Command, pi: real): real {
    if cmd.speedMode then cmd.yawRate
    else if cmd.positionMode then Sat((cmd.yaw - st.yaw) * 2.0, pi / 4.0)
    else 0.0
  }

  function Smooth(old_: real, wanted: real): real {
    old_ * 0.97 + wanted * 0.03
  }

  /** Smoothed and limited velocity. */
  function Follow(vel: Vec, wanted: Vec): Vec {
    Vec(Sat(Smooth(vel.x, wanted.x), 15.0), Sat(Smooth(vel.y, wanted.y), 15.0),
        Sat(Smooth(vel.z, wanted.z), 10.0))
  }

  function Move(pos: Vec, vel: Vec, dt: real): Vec {
    Vec(vel.x * dt + pos.x, vel.y * dt + pos.y, vel.z * dt + pos.z)
  }

  function Turned(yaw: real, rate: real, dt: real): real {
    rate * dt + yaw
  }

  /** Pressed into the ground: below its level with a downward command. */
  predicate Grounded(st: State, cmd: Command) {
    st.pos.z > 0.0 && WantedVelocity(st, cmd).z > 0.0
  }

  function NewVelocity(st: State, cmd: Command): Vec {
    var off := WantedVelocity(st, cmd);
    if Grounded(st, cmd) then Vec(0.0, 0.0, 0.0)
    else Follow(st.vel, if cmd.bodyFrame then Rotate(off, cmd.c, cmd.s) else off)
  }

  function NewYawRate(st: State, cmd: Command, pi: real): real {
    if Grounded(st, cmd) then 0.0 else Sat(Smooth(st.yawRate, WantedYawRate(st, cmd, pi)), pi)
  }

  function Integrate(st: State, vel: Vec, rate: real, dt: real, pi: real): State
    requires pi > 0.0
  {
    State(Move(st.pos, vel, dt), vel, rate, YawSat(Turned(st.yaw, rate, dt), pi))
  }

  function Tick(st: State, cmd: Command, dt: real, pi: real): State
    requires pi > 0.0
  {
    Integrate(st, NewVelocity(st, cmd), NewYawRate(st, cmd, pi), dt, pi)
  }

  // ---------------------------------------------------------------- where a tick leads

  /** `v` is `x`, cut to the range from `-limit` to `limit`. */
  predicate CutTo(v: real, x: real, limit: real) {
    (-limit <= x <= limit ==> v == x) && (x > limit ==> v == limit) && (x < -limit ==> v == -limit)
  }

  /** Seen from the earth: as the program turns a vector given in the body frame. */
  function FromBody(v: Vec, cmd: Command): Vec {
    if cmd.bodyFrame then Vec(v.x * cmd.c + v.y * cmd.s, v.x * cmd.s + v.y * cmd.c, v.z) else v
  }

  lemma TurnedFromBody(v: Vec, cmd: Command)
    ensures FromBody(v, cmd) == if cmd.bodyFrame then Rotate(v, cmd.c, cmd.s) else v
  {
  }

  lemma HalfWay(d: real, limit: real)
    ensures limit >= 0.0 ==> CutTo(Sat(d * 0.5, limit), d / 2.0, limit)
  {
  }

  lemma Turnwise(d: real, limit: real)
    ensures limit >= 0.0 ==> CutTo(Sat(d * 2.0, limit), 2.0 * d, limit)
  {
  }

  /** In position mode the wanted speed leads to the target: half the way per second on each axis,
      cut at the top speed; and the wanted turn to the target heading, twice the difference per
      second, cut at an eighth of a turn. */
  lemma PositionModeAims(st: State, cmd: Command, pi: real)
    requires !cmd.speedMode && cmd.positionMode && cmd.maxSpeed >= 0.0 && pi > 0.0
    ensures var want, to := WantedVelocity(st, cmd), FromBody(cmd.pos, cmd);
            && CutTo(want.x, (to.x - st.pos.x) / 2.0, cmd.maxSpeed)
            && CutTo(want.y, (to.y - st.pos.y) / 2.0, cmd.maxSpeed)
            && CutTo(want.z, (to.z - st.pos.z) / 2.0, cmd.maxSpeed)
    ensures CutTo(WantedYawRate(st, cmd, pi), 2.0 * (cmd.yaw - st.yaw), pi / 4.0)
  {
    hide Sat, CutTo, Rotate, FromBody;
    var to := FromBody(cmd.pos, cmd);
    TurnedFromBody(cmd.pos, cmd);
    HalfWay(to.x - st.pos.x, cmd.maxSpeed);
    HalfWay(to.y - st.pos.y, cmd.maxSpeed);
    HalfWay(to.z - st.pos.z, cmd.maxSpeed);
    Turnwise(cmd.yaw - st.yaw, pi / 4.0);
  }

  /** In speed mode the command is wanted, with no mode nothing. */
  lemma OtherModes(st: State, cmd: Command, pi: real)
    ensures cmd.speedMode ==> WantedVelocity(st, cmd) == cmd.vel && WantedYawRate(st, cmd, pi) == cmd.yawRate
    ensures !cmd.speedMode && !cmd.positionMode ==>
              WantedVelocity(st, cmd) == Vec(0.0, 0.0, 0.0) && WantedYawRate(st, cmd, pi) == 0.0
  {
  }

  /** Three percent of the difference to `u` are made up. */
  function Eased(v: real, u: real): real {
    v + 3.0 / 100.0 * (u - v)
  }

  lemma EasedCut(v: real, u: real, limit: real)
    ensures limit >= 0.0 ==> CutTo(Sat(Smooth(v, u), limit), Eased(v, u), limit)
  {
  }

  /** Off the ground, every tick makes up three percent of what is missing to the wanted speed,
      within 15 m/s level and 10 m/s vertical, and of the wanted turn, within half a turn per second. */
  lemma TickEases(st: State, cmd: Command, dt: real, pi: real)
    requires pi > 0.0 && !(st.pos.z > 0.0 && WantedVelocity(st, cmd).z > 0.0)
    ensures var u, v := FromBody(WantedVelocity(st, cmd), cmd), Tick(st, cmd, dt, pi).vel;
            && CutTo(v.x, Eased(st.vel.x, u.x), 15.0)
            && CutTo(v.y, Eased(st.vel.y, u.y), 15.0)
            && CutTo(v.z, Eased(st.vel.z, u.z), 10.0)
    ensures CutTo(Tick(st, cmd, dt, pi).yawRate, Eased(st.yawRate, WantedYawRate(st, cmd, pi)), pi)
  {
    hide Sat, Smooth, Eased, CutTo, Rotate, FromBody, WantedVelocity, WantedYawRate, YawSat;
    var u := FromBody(WantedVelocity(st, cmd), cmd);
    TurnedFromBody(WantedVelocity(st, cmd), cmd);
    EasedCut(st.vel.x, u.x, 15.0);
    EasedCut(st.vel.y, u.y, 15.0);
    EasedCut(st.vel.z, u.z, 10.0);
    EasedCut(st.yawRate, WantedYawRate(st, cmd, pi), pi);
  }

  /** Pressed into the ground, everything stops. */
  lemma TickStops(st: State, cmd: Command, dt: real, pi: real)
    requires pi > 0.0 && st.pos.z > 0.0 && WantedVelocity(st, cmd).z > 0.0
    ensures var t := Tick(st, cmd, dt, pi);
            t.vel == Vec(0.0, 0.0, 0.0) && t.yawRate == 0.0 && t.pos == st.pos
  {
  }

  /** A tick moves by the new speed and turns by the new rate, up to whole turns. */
  lemma TickMoves(st: State, cmd: Command, dt: real, pi: real) returns (k: int)
    requires pi > 0.0
    ensures var t := Tick(st, cmd, dt, pi);
            && t.pos.x - st.pos.x == t.vel.x * dt && t.pos.y - st.pos.y == t.vel.y * dt
            && t.pos.z - st.pos.z == t.vel.z * dt
            && t.yaw == st.yaw + t.yawRate * dt + Turns(k, pi) && -pi <= t.yaw <= pi
  {
    hide Turns, NewVelocity, NewYawRate;
    k := YawSatIsCongruent(Turned(st.yaw, NewYawRate(st, cmd, pi), dt), pi);
  }

  /** A vehicle at rest at its target, on course and not below ground, stays there. */
  lemma TargetIsHeld(st: State, cmd: Command, dt: real, pi: real)
    requires pi > 0.0 && cmd.maxSpeed >= 0.0 && !cmd.speedMode && cmd.positionMode
    requires st.pos == FromBody(cmd.pos, cmd) && st.yaw == cmd.yaw && -pi <= st.yaw <= pi
    requires st.vel == Vec(0.0, 0.0, 0.0) && st.yawRate == 0.0
    ensures Tick(st, cmd, dt, pi) == st
  {
    PositionModeAims(st, cmd, pi);
    assert WantedVelocity(st, cmd) == Vec(0.0, 0.0, 0.0) && WantedYawRate(st, cmd, pi) == 0.0;
  }

  // ---------------------------------------------------------------- what every tick keeps

  /** Speed and yaw limits. */
  ghost predicate Limited(st: State, pi: real) {
    && -15.0 <= st.vel.x <= 15.0 && -15.0 <= st.vel.y <= 15.0 && -10.0 <= st.vel.z <= 10.0
    && -pi <= st.yawRate <= pi && -pi <= st.yaw <= pi
  }

  lemma TickStaysLimited(st: State, cmd: Command, dt: real, pi: real)
    requires pi > 0.0
    ensures Limited(Tick(st, cmd, dt, pi), pi)
  {
  }

  function Down(v: real): real {
    if v > 0.0 then v else 0.0
  }

  /** Below ground level, depth plus what the remaining downward speed can still add is at most
      (1000/3) times the longest tick. */
  ghost predicate Shallow(z: real, v: real, longest: real) {
    v <= 10.0 && (z > 0.0 ==> z + 97.0 / 3.0 * (longest * Down(v)) <= 1000.0 / 3.0 * longest)
  }

  lemma DepthBounded(z: real, v: real, longest: real)
    requires Shallow(z, v, longest) && longest >= 0.0
    ensures z <= 1000.0 / 3.0 * longest
  {
    assert longest * Down(v) >= 0.0;
  }

  lemma Grow(v: real, dt: real, longest: real)
    requires 0.0 <= dt <= longest
    ensures v * dt <= longest * Down(v)
  {
  }

  /** Free fall from ground level or above: one tick cannot get deeper than ten metres per
      second allow. */
  lemma FromAbove(z: real, v: real, dt: real, longest: real)
    requires 0.0 <= dt <= longest && z <= 0.0 && v <= 10.0
    ensures Shallow(v * dt + z, v, longest)
  {
    Grow(v, dt, longest);
    assert longest * Down(v) <= longest * 10.0 by {
      assert longest * (10.0 - Down(v)) >= 0.0;
    }
  }

  /** Below ground with no downward command, the smoothing takes speed away fast enough. */
  lemma FromBelow(z: real, v: real, u: real, dt: real, longest: real)
    requires 0.0 <= dt <= longest && z > 0.0 && u <= 0.0 && Shallow(z, v, longest)
    ensures var v' := Sat(Smooth(v, u), 10.0);
            Shallow(v' * dt + z, v', longest)
  {
    var v' := Sat(Smooth(v, u), 10.0);
    Grow(v', dt, longest);
    assert Down(v') <= 0.97 * Down(v);
    assert longest * Down(v') <= 0.97 * (longest * Down(v)) by {
      assert longest * (0.97 * Down(v) - Down(v')) >= 0.0;
    }
  }

  /** The vertical part of a tick does not depend on the rest of the state. */
  lemma VerticalTick(st: State, cmd: Command, dt: real, pi: real)
    requires pi > 0.0
    ensures var u, st' := WantedVelocity(st, cmd).z, Tick(st, cmd, dt, pi);
            && st'.vel.z == (if st.pos.z > 0.0 && u > 0.0 then 0.0 else Sat(Smooth(st.vel.z, u), 10.0))
            && st'.pos.z == st'.vel.z * dt + st.pos.z
  {
  }

  lemma OnTheGround(z: real, v: real, dt: real, longest: real)
    requires longest >= 0.0 && Shallow(z, v, longest)
    ensures Shallow(0.0 * dt + z, 0.0, longest)
  {
  }

  /** The vertical motion keeps the potential, under every commanded speed `u`. */
  lemma VerticalStaysShallow(z: real, v: real, u: real, dt: real, longest: real, z': real, v': real)
    requires 0.0 <= dt <= longest && Shallow(z, v, longest)
    requires v' == if z > 0.0 && u > 0.0 then 0.0 else Sat(Smooth(v, u), 10.0)
    requires z' == v' * dt + z
    ensures Shallow(z', v', longest)
  {
    if z <= 0.0 {
      FromAbove(z, v', dt, longest);
    } else if u > 0.0 {
      OnTheGround(z, v, dt, longest);
    } else {
      FromBelow(z, v, u, dt, longest);
    }
  }

  /** The potential is kept by every tick, under every command. */
  lemma TickStaysShallow(st: State, cmd: Command, dt: real, pi: real, longest: real)
    requires pi > 0.0 && 0.0 <= dt <= longest && Shallow(st.pos.z, st.vel.z, longest)
    ensures Shallow(Tick(st, cmd, dt, pi).pos.z, Tick(st, cmd, dt, pi).vel.z, longest)
  {
    VerticalTick(st, cmd, dt, pi);
    var st' := Tick(st, cmd, dt, pi);
    VerticalStaysShallow(st.pos.z, st.vel.z, WantedVelocity(st, cmd).z, dt, longest, st'.pos.z,
                         st'.vel.z);
  }

  // ---------------------------------------------------------------- the simulator

  class PointMassModel {
    const pi: real
    var uavPosNED: Vec
    var uavVelNED: Vec
    var uavAngRateZ: real
    var uavYaw: real

    constructor (half: real, at: Vec, heading: real)
      ensures pi == half && Current() == State(at, Vec(0.0, 0.0, 0.0), 0.0, heading)
    {
      pi, uavPosNED, uavVelNED, uavAngRateZ, uavYaw := half, at, Vec(0.0, 0.0, 0.0), 0.0, heading;
    }

    function Current(): State
      reads this
    {
      State(uavPosNED, uavVelNED, uavAngRateZ, uavYaw)
    }

    /** Desired speed and yaw rate, by mode. */
    method Desired(cmd: Command) returns (velOff: Vec, yawRateOff: real)
      ensures velOff == WantedVelocity(Current(), cmd)
      ensures yawRateOff == WantedYawRate(Current(), cmd, pi)
    {
      velOff, yawRateOff := cmd.vel, cmd.yawRate;
      if cmd.speedMode { return; }
      if cmd.positionMode {
        var target := cmd.pos;
        if cmd.bodyFrame { target := Rotate(cmd.pos, cmd.c, cmd.s); }
        velOff := Approach(target, uavPosNED, cmd.maxSpeed);
        yawRateOff := Sat((cmd.yaw - uavYaw) * 2.0, pi / 4.0);
      } else {
        velOff, yawRateOff := Vec(0.0, 0.0, 0.0), 0.0;
      }
    }

    method UpdateSpeeds(cmd: Command)
      modifies this`uavVelNED, this`uavAngRateZ
      ensures uavVelNED == NewVelocity(old(Current()), cmd)
      ensures uavAngRateZ == NewYawRate(old(Current()), cmd, pi)
    {
      var velOff, yawRateOff := Desired(cmd);
      var velE := if cmd.bodyFrame then Rotate(velOff, cmd.c, cmd.s) else velOff;
      uavVelNED := Follow(uavVelNED, velE);
      uavAngRateZ := Sat(Smooth(uavAngRateZ, yawRateOff), pi);
      if uavPosNED.z > 0.0 && velOff.z > 0.0 {
        uavVelNED := Vec(0.0, 0.0, 0.0);
        uavAngRateZ := 0.0;
      }
    }

    method UpdatePosition(dt: real)
      requires pi > 0.0
      modifies this`uavPosNED, this`uavYaw
      ensures uavPosNED == Move(old(uavPosNED), uavVelNED, dt)
      ensures uavYaw == YawSat(Turned(old(uavYaw), uavAngRateZ, dt), pi)
    {
      uavPosNED := Move(uavPosNED, uavVelNED, dt);
      uavYaw := YawSat(Turned(uavYaw, uavAngRateZ, dt), pi);
    }

    /** One turn of the simulation loop. */
    method Advance(cmd: Command, dt: real)
      requires pi > 0.0
      modifies this
      ensures Current() == Tick(old(Current()), cmd, dt, pi)
    {
      UpdateSpeeds(cmd);
      UpdatePosition(dt);
    }

    /** The simulation loop over any commands and any tick lengths up to `longest`, from rest on
        or above the ground: the vehicle never gets deeper than (1000/3) * longest. `depths`
        lists its down position after every tick. */
    method Simulate(commands: seq<Command>, ticks: seq<real>, longest: real)
      returns (depths: seq<real>)
      requires pi > 0.0 && longest >= 0.0 && |commands| == |ticks|
      requires forall k | 0 <= k < |ticks| :: 0.0 <= ticks[k] <= longest
      requires uavPosNED.z <= 0.0 && uavVelNED == Vec(0.0, 0.0, 0.0)
      modifies this
      ensures |depths| == |ticks|
      ensures forall k | 0 <= k < |depths| :: depths[k] <= 1000.0 / 3.0 * longest
      ensures |ticks| > 0 ==> Limited(Current(), pi) && depths[|ticks| - 1] == uavPosNED.z
    {
      depths := [];
      for k := 0 to |ticks|
        invariant |depths| == k && Shallow(uavPosNED.z, uavVelNED.z, longest)
        invariant forall i | 0 <= i < k :: depths[i] <= 1000.0 / 3.0 * longest
        invariant k > 0 ==> Limited(Current(), pi) && depths[k - 1] == uavPosNED.z
      {
        TickStaysShallow(Current(), commands[k], ticks[k], pi, longest);
        TickStaysLimited(Current(), commands[k], ticks[k], pi);
        Advance(commands[k], ticks[k]);
        DepthBounded(uavPosNED.z, uavVelNED.z, longest);
        depths := depths + [uavPosNED.z];
      }
    }
  }
}
