/**
 * One particle of the swarm: its state as a value (`ParticleState`), the
 * transitions the source applies to it (kill, the colour step of draw,
 * the integration step of move, the retargeting done when a word is
 * assigned), and the `Particle` class whose methods update its fields in
 * place and are proved against those transitions.
 */
module Particles {
  import opened Geometry

  /**
   * The random input a newly created particle consumes: the off-scene
   * spawn point produced by the random-position helper, and the three
   * Math.random() draws that tune its speed, size and blend rate.
   */
  datatype SpawnDraw = SpawnDraw(pos: Vec, speed: Unit, size: Unit, blend: Unit)

  /** Every field of a particle. `size` is the source's particleSize. */
  datatype ParticleState = ParticleState(
    pos: Vec, vel: Vec, acc: Vec, target: Vec,
    maxSpeed: real, maxForce: real, size: real,
    isKilled: bool,
    startColor: Rgb, targetColor: Rgb, colorWeight: real, colorBlendRate: real)

  /** The field initialisers of a freshly constructed particle. */
  const Initial := ParticleState(Origin, Origin, Origin, Origin, 1.0, 0.1, 10.0, false, Black, Black, 0.0, 0.01)

  /** The colour-blend invariant every particle of the swarm keeps. */
  predicate ColorOk(p: ParticleState)
  {
    0.0 <= p.colorWeight <= 1.0 && p.colorBlendRate >= 0.0
  }

  predicate AllColorOk(ps: seq<ParticleState>)
  {
    forall i :: 0 <= i < |ps| ==> ColorOk(ps[i])
  }

  /** The colour the particle shows, before rounding. */
  function Shown(p: ParticleState): Rgb
  {
    Blend(p.startColor, p.targetColor, p.colorWeight)
  }

  function Min(a: real, b: real): real
  {
    if a <= b then a else b
  }

  predicate OnCanvas(v: Vec, width: nat, height: nat)
  {
    0.0 <= v.x < width as real && 0.0 <= v.y < height as real
  }

  /** Every particle that is not killed aims at a point on the canvas. */
  predicate LiveOnCanvas(ps: seq<ParticleState>, width: nat, height: nat)
  {
    forall i :: 0 <= i < |ps| && !ps[i].isKilled ==> OnCanvas(ps[i].target, width, height)
  }

  /** A particle created for a word that needs more particles than exist. */
  function Spawned(d: SpawnDraw): (p: ParticleState)
    ensures p.pos == d.pos && !p.isKilled && ColorOk(p)
    ensures 4.0 <= p.maxSpeed < 10.0 && p.maxForce == p.maxSpeed * 0.05
    ensures 6.0 <= p.size < 12.0
    ensures 0.0025 <= p.colorBlendRate < 0.03
    ensures p.startColor == Black && p.targetColor == Black && p.colorWeight == 0.0
  {
    var speed := d.speed * 6.0 + 4.0;
    Initial.(pos := d.pos, maxSpeed := speed, maxForce := speed * 0.05,
             size := d.size * 6.0 + 6.0, colorBlendRate := d.blend * 0.0275 + 0.0025)
  }

  /**
   * kill: a live particle is sent to `away` (the random off-scene point),
   * starts a fresh blend towards black from the colour it currently shows,
   * and is marked killed; a killed particle is left as it is.
   */
  function Killed(p: ParticleState, away: Vec): (q: ParticleState)
    ensures q.isKilled
    ensures p.isKilled ==> q == p
    ensures ColorOk(p) ==> ColorOk(q)
  {
    if p.isKilled then p
    else p.(target := away, startColor := Shown(p), targetColor := Black, colorWeight := 0.0, isKilled := true)
  }

  /** The colour step of draw: the weight moves up by the blend rate, capped at 1. */
  function Drawn(p: ParticleState): ParticleState
  {
    if p.colorWeight < 1.0 then p.(colorWeight := Min(p.colorWeight + p.colorBlendRate, 1.0)) else p
  }

  /** The colour draw paints, computed from the already advanced weight. */
  function DrawnColor(p: ParticleState): RgbInt
  {
    RoundRgb(Shown(Drawn(p)))
  }

  /**
   * The integration step of move: the steering force is added to the
   * acceleration, the acceleration to the velocity, the velocity to the
   * position, and the acceleration is cleared.
   */
  function Moved(p: ParticleState, steer: Vec): (q: ParticleState)
    ensures q.acc == Origin
  {
    var vel := p.vel.Add(p.acc.Add(steer));
    p.(vel := vel, pos := p.pos.Add(vel), acc := Origin)
  }

  /** A new word's target and colour: blend restarts from the colour shown now. */
  function Retargeted(p: ParticleState, t: Vec, color: Rgb): (q: ParticleState)
    ensures q.target == t && q.targetColor == color && q.colorWeight == 0.0
  {
    p.(startColor := Shown(p), targetColor := color, colorWeight := 0.0, target := t)
  }

  /** `n` successive draw calls. */
  function DrawnTimes(p: ParticleState, n: nat): ParticleState
  {
    if n == 0 then p else Drawn(DrawnTimes(p, n - 1))
  }

  /**
   * Killing twice is killing once, whatever the second destination; and a
   * killed particle that has since been moved and drawn (a later frame) is
   * still killed, so a later kill leaves it as it is.
   */
  lemma KillIdempotent(p: ParticleState, away: Vec, steer: Vec, again: Vec)
    ensures Killed(Killed(p, away), again) == Killed(p, away)
    ensures var q := Drawn(Moved(Killed(p, away), steer));
      q.isKilled && Killed(q, again) == q
  {
  }

  /**
   * The first kill: black target colour, weight 0, the old blend as the
   * new start colour (so the colour shown does not jump), position and
   * motion untouched.
   */
  lemma KillFirst(p: ParticleState, away: Vec)
    requires !p.isKilled
    ensures var q := Killed(p, away);
      q.isKilled && q.target == away && q.targetColor == Black && q.colorWeight == 0.0 &&
      q.startColor == Blend(p.startColor, p.targetColor, p.colorWeight) &&
      Shown(q) == Shown(p) &&
      q.pos == p.pos && q.vel == p.vel && q.colorBlendRate == p.colorBlendRate
  {
  }

  /** Retargeting keeps the colour on screen continuous and keeps the colour invariant. */
  lemma RetargetContinuous(p: ParticleState, t: Vec, color: Rgb)
    requires ColorOk(p)
    ensures Shown(Retargeted(p, t, color)) == Shown(p)
    ensures ColorOk(Retargeted(p, t, color))
  {
  }

  /** One draw never lowers the weight and keeps it within [0, 1]. */
  lemma DrawMonotone(p: ParticleState)
    requires ColorOk(p)
    ensures p.colorWeight <= Drawn(p).colorWeight <= 1.0
    ensures ColorOk(Drawn(p))
  {
  }

  /** After `n` draws the weight is `min(w + n * rate, 1)`. */
  lemma DrawnTimesWeight(p: ParticleState, n: nat)
    requires ColorOk(p)
    ensures DrawnTimes(p, n).colorWeight == Min(p.colorWeight + n as real * p.colorBlendRate, 1.0)
    ensures ColorOk(DrawnTimes(p, n))
    ensures DrawnTimes(p, n).startColor == p.startColor && DrawnTimes(p, n).targetColor == p.targetColor
    ensures DrawnTimes(p, n).colorBlendRate == p.colorBlendRate
  {
    DrawnTimesGain(p, n, n as real * p.colorBlendRate);
  }

  /** `DrawnTimesWeight` with the gain `n * rate` named, so the induction stays linear. */
  lemma {:induction false} DrawnTimesGain(p: ParticleState, n: nat, gain: real)
    requires ColorOk(p) && gain == n as real * p.colorBlendRate
    ensures DrawnTimes(p, n).colorWeight == Min(p.colorWeight + gain, 1.0)
    ensures ColorOk(DrawnTimes(p, n))
    ensures DrawnTimes(p, n).startColor == p.startColor && DrawnTimes(p, n).targetColor == p.targetColor
    ensures DrawnTimes(p, n).colorBlendRate == p.colorBlendRate
  {
    if n > 0 {
      MulSucc(n - 1, p.colorBlendRate);
      var earlier := gain - p.colorBlendRate;
      DrawnTimesGain(p, n - 1, earlier);
      DrawStep(DrawnTimes(p, n - 1), p.colorWeight + earlier);
    } else {
      assert gain == 0.0;
    }
  }

  lemma MulSucc(n: nat, r: real)
    ensures (n + 1) as real * r == n as real * r + r
  {
  }

  /** One draw from weight `min(w, 1)` reaches `min(w + rate, 1)`. */
  lemma DrawStep(q: ParticleState, w: real)
    requires ColorOk(q) && q.colorWeight == Min(w, 1.0)
    ensures Drawn(q).colorWeight == Min(w + q.colorBlendRate, 1.0)
    ensures ColorOk(Drawn(q)) && Drawn(q).colorBlendRate == q.colorBlendRate
    ensures Drawn(q).startColor == q.startColor && Drawn(q).targetColor == q.targetColor
  {
  }

  /** At weight 1 a draw paints the target colour, rounded channel by channel. */
  lemma FullWeightPaintsTarget(p: ParticleState)
    requires p.colorWeight == 1.0
    ensures DrawnColor(p) == RoundRgb(p.targetColor)
  {
  }

  /** With a positive rate, enough draws reach weight 1 and paint the target colour. */
  lemma {:induction false} DrawsConverge(p: ParticleState, n: nat)
    requires ColorOk(p) && p.colorBlendRate > 0.0
    requires n as real * p.colorBlendRate >= 1.0 - p.colorWeight
    ensures DrawnTimes(p, n).colorWeight == 1.0
    ensures DrawnColor(DrawnTimes(p, n)) == RoundRgb(p.targetColor)
  {
    DrawnTimesWeight(p, n);
    FullWeightPaintsTarget(DrawnTimes(p, n));
  }

  /** A mutable particle; every method is proved against the transition of the same name. */
  class Particle {
    var pos: Vec
    var vel: Vec
    var acc: Vec
    var target: Vec
    var maxSpeed: real
    var maxForce: real
    var particleSize: real
    var isKilled: bool
    var startColor: Rgb
    var targetColor: Rgb
    var colorWeight: real
    var colorBlendRate: real

    function State(): ParticleState
      reads this
    {
      ParticleState(pos, vel, acc, target, maxSpeed, maxForce, particleSize, isKilled,
                    startColor, targetColor, colorWeight, colorBlendRate)
    }

    constructor ()
      ensures State() == Initial
    {
      pos, vel, acc, target := Origin, Origin, Origin, Origin;
      maxSpeed, maxForce, particleSize := 1.0, 0.1, 10.0;
      isKilled := false;
      startColor, targetColor := Black, Black;
      colorWeight, colorBlendRate := 0.0, 0.01;
    }

    /** `away` stands for the random off-scene point the source draws here. */
    method Kill(away: Vec)
      modifies this
      ensures State() == Killed(old(State()), away)
    {
      if !isKilled {
        target := away;
        startColor := Blend(startColor, targetColor, colorWeight);
        targetColor := Black;
        colorWeight := 0.0;
        isKilled := true;
      }
    }

    /** The colour part of draw: advance the weight, return the colour painted. */
    method Draw() returns (painted: RgbInt)
      modifies this
      ensures State() == Drawn(old(State()))
      ensures painted == DrawnColor(old(State()))
    {
      if colorWeight < 1.0 {
        colorWeight := Min(colorWeight + colorBlendRate, 1.0);
      }
      painted := RoundRgb(Blend(startColor, targetColor, colorWeight));
    }

    /** move, given the steering force it computes from the target. */
    method Move(steer: Vec)
      modifies this
      ensures State() == Moved(old(State()), steer)
    {
      acc := acc.Add(steer);
      vel := vel.Add(acc);
      pos := pos.Add(vel);
      acc := Origin;
    }

    /** The colour transition and target update done for each sampled pixel of a word. */
    method Retarget(t: Vec, color: Rgb)
      modifies this
      ensures State() == Retargeted(old(State()), t, color)
    {
      startColor := Blend(startColor, targetColor, colorWeight);
      targetColor := color;
      colorWeight := 0.0;
      target := t;
    }
  }
}
