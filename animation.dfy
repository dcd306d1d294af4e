/**
 * The per-frame bookkeeping of animate, as values: the heartbeat scale of
 * the hero word, the floater bounce, the backward sweep that drops killed
 * particles once they leave the canvas, the right-button kill radius and
 * the cyclic word schedule.
 */
module Animation {
  import opened Geometry
  import opened Particles

  /** The word with its own duration and heartbeat. */
  const HeroWord := "SCARLET"

  const SettleFrames: nat := 20
  const BeatFrames: nat := 60
  const Beats: nat := 3
  const BaseDuration: nat := 200
  const HeroDuration: nat := 320

  /** Radius of the right-button kill, compared squared to avoid the square root. */
  const KillRadius: real := 50.0

  // ---------------------------------------------------------------------
  // Heartbeat

  /** `1 - min(floor(t / 60) / 3, 0.9)`: the pulse amplitude decays beat by beat. */
  function Envelope(t: nat): real
  {
    1.0 - Min((t / BeatFrames) as real / Beats as real, 0.9)
  }

  /**
   * The draw scale for the frame whose (already incremented) word frame is
   * `wordFrame`. `sine` is Math.sin(2 * PI * (t % 60) / 60) for that frame.
   */
  function HeartbeatScale(key: string, wordFrame: nat, sine: real): real
  {
    if key == HeroWord && wordFrame > SettleFrames then
      var t := wordFrame - SettleFrames;
      if t <= Beats * BeatFrames then 1.0 + 0.12 * sine * Envelope(t) else 1.0
    else 1.0
  }

  /** The envelope takes the values 1, 2/3, 1/3 on the three beats and 0.1 on the closing frame. */
  lemma EnvelopeSteps(t: nat)
    requires t <= Beats * BeatFrames
    ensures t < 60 ==> Envelope(t) == 1.0
    ensures 60 <= t < 120 ==> Envelope(t) == 2.0 / 3.0
    ensures 120 <= t < 180 ==> Envelope(t) == 1.0 / 3.0
    ensures t == 180 ==> Envelope(t) == 0.1
  {
    if t < 60 {
      assert t / BeatFrames == 0;
    } else if t < 120 {
      assert t / BeatFrames == 1;
    } else if t < 180 {
      assert t / BeatFrames == 2;
    } else {
      assert t / BeatFrames == 3;
    }
  }

  /** The envelope never grows and stays within [0.1, 1]. */
  lemma EnvelopeDecays(t1: nat, t2: nat)
    requires t1 <= t2
    ensures 0.1 <= Envelope(t2) <= Envelope(t1) <= 1.0
  {
    assert t1 / BeatFrames <= t2 / BeatFrames;
  }

  /** The scale stays within 12% of 1, and is exactly 1 outside the hero word's pulse window. */
  lemma {:induction false} HeartbeatBounded(key: string, wordFrame: nat, sine: real)
    requires -1.0 <= sine <= 1.0
    ensures 0.88 <= HeartbeatScale(key, wordFrame, sine) <= 1.12
    ensures key != HeroWord || wordFrame <= SettleFrames || wordFrame > SettleFrames + Beats * BeatFrames
      ==> HeartbeatScale(key, wordFrame, sine) == 1.0
  {
    if key == HeroWord && SettleFrames < wordFrame <= SettleFrames + Beats * BeatFrames {
      var t := wordFrame - SettleFrames;
      var e := Envelope(t);
      EnvelopeDecays(0, t);
      var se := sine * e;
      assert -1.0 <= se <= 1.0 by {
        if sine >= 0.0 {
          ScaleDown(sine, e);
        } else {
          ScaleDown(-sine, e);
          assert se == -((-sine) * e);
        }
      }
      assert 0.12 * sine * e == 0.12 * se;
      assert HeartbeatScale(key, wordFrame, sine) == 1.0 + 0.12 * se;
    }
  }

  // ---------------------------------------------------------------------
  // Floaters

  /** A decorative floater; its colour string is a constant and not modelled. */
  datatype Floater = Floater(pos: Vec, vel: Vec, size: real)

  /** The random draws of one floater at start-up. */
  datatype FloaterDraw = FloaterDraw(x: Unit, y: Unit, vx: Unit, vy: Unit, size: Unit)

  const FloaterCount: nat := 220

  function SeedFloater(d: FloaterDraw, width: nat, height: nat): (f: Floater)
    ensures FloaterOk(f, width, height)
    ensures 0.0 <= f.pos.x <= width as real && 0.0 <= f.pos.y <= height as real
    ensures -0.3 <= f.vel.x < 0.3 && -0.3 <= f.vel.y < 0.3
  {
    Floater(Vec(Scaled(d.x, width), Scaled(d.y, height)),
            Vec(Velocity(d.vx), Velocity(d.vy)), d.size * 1.8 + 0.6)
  }

  /** A random fraction of the canvas extent `bound`. */
  function Scaled(u: Unit, bound: nat): (p: real)
    ensures 0.0 <= p <= bound as real
  {
    ScaleDown(bound as real, u);
    bound as real * u
  }

  /** A random velocity component, `(u - 0.5) * 0.6`. */
  function Velocity(u: Unit): (v: real)
    ensures -0.3 <= v < 0.3
  {
    (u - 0.5) * 0.6
  }

  function Reflect(v: real, p: real, bound: nat): real
  {
    if p < 0.0 || p > bound as real then -v else v
  }

  /** Move by the velocity, then reverse each velocity component whose coordinate left [0, bound]. */
  function FloaterStep(f: Floater, width: nat, height: nat): Floater
  {
    var pos := f.pos.Add(f.vel);
    f.(pos := pos, vel := Vec(Reflect(f.vel.x, pos.x, width), Reflect(f.vel.y, pos.y, height)))
  }

  /**
   * One axis of a floater is fine when it is inside [0, bound], or outside
   * by less than one step and heading back in.
   */
  predicate Contained(p: real, v: real, bound: nat)
  {
    (0.0 <= p <= bound as real) ||
    (p < 0.0 && v > 0.0 && p + v >= 0.0) ||
    (p > bound as real && v < 0.0 && p + v <= bound as real)
  }

  predicate FloaterOk(f: Floater, width: nat, height: nat)
  {
    Contained(f.pos.x, f.vel.x, width) && Contained(f.pos.y, f.vel.y, height)
  }

  /** The bounce keeps a floater contained and keeps its speed on each axis. */
  lemma FloaterStepKeepsOk(f: Floater, width: nat, height: nat)
    requires FloaterOk(f, width, height)
    ensures FloaterOk(FloaterStep(f, width, height), width, height)
    ensures var g := FloaterStep(f, width, height);
      (g.vel.x == f.vel.x || g.vel.x == -f.vel.x) && (g.vel.y == f.vel.y || g.vel.y == -f.vel.y)
  {
  }

  /** One frame of every floater. */
  function FloatersStepped(fs: seq<Floater>, width: nat, height: nat): (r: seq<Floater>)
    ensures |r| == |fs|
    ensures (forall f :: f in fs ==> FloaterOk(f, width, height)) ==> forall g :: g in r ==> FloaterOk(g, width, height)
  {
    var r := seq(|fs|, i requires 0 <= i < |fs| => FloaterStep(fs[i], width, height));
    assert forall i :: 0 <= i < |fs| ==> (FloaterOk(fs[i], width, height) ==> FloaterOk(r[i], width, height)) by {
      forall i | 0 <= i < |fs| && FloaterOk(fs[i], width, height) ensures FloaterOk(r[i], width, height) {
        FloaterStepKeepsOk(fs[i], width, height);
      }
    }
    r
  }

  /** The floaters of the first frame, one per draw. */
  function Seeded(draws: seq<FloaterDraw>, width: nat, height: nat): (r: seq<Floater>)
    ensures |r| == |draws| && forall f :: f in r ==> FloaterOk(f, width, height)
  {
    seq(|draws|, i requires 0 <= i < |draws| => SeedFloater(draws[i], width, height))
  }

  /** A contained floater never gets farther than one step outside the canvas. */
  lemma ContainedNear(p: real, v: real, bound: nat)
    requires Contained(p, v, bound)
    ensures -(if v < 0.0 then -v else v) <= p <= bound as real + (if v < 0.0 then -v else v)
  {
  }

  /** A floater on the left edge moving left moves right after the next update. */
  lemma LeftEdgeBounces(f: Floater, width: nat, height: nat)
    requires f.pos.x == 0.0 && f.vel.x < 0.0
    ensures FloaterStep(f, width, height).vel.x > 0.0
  {
  }

  // ---------------------------------------------------------------------
  // Particle sweep

  /** Killed and outside the canvas rectangle [0, width] x [0, height]. */
  predicate Gone(p: ParticleState, width: nat, height: nat)
  {
    p.isKilled &&
    (p.pos.x < 0.0 || p.pos.x > width as real || p.pos.y < 0.0 || p.pos.y > height as real)
  }

  /** move then draw, with the steering force move computed for this particle. */
  function Stepped(p: ParticleState, steer: Vec): ParticleState
  {
    Drawn(Moved(p, steer))
  }

  /** The particles that are not gone, in their original order. */
  function Survivors(ps: seq<ParticleState>, width: nat, height: nat): seq<ParticleState>
  {
    if ps == [] then []
    else (if Gone(ps[0], width, height) then [] else [ps[0]]) + Survivors(ps[1..], width, height)
  }

  /** Each particle stepped with its own steering force, then the gone ones removed. */
  function Sweep(ps: seq<ParticleState>, steers: seq<Vec>, width: nat, height: nat): seq<ParticleState>
    requires |steers| == |ps|
  {
    Survivors(seq(|ps|, i requires 0 <= i < |ps| => Stepped(ps[i], steers[i])), width, height)
  }

  /** The sweep visits one particle, then the rest. */
  lemma SweepCons(ps: seq<ParticleState>, steers: seq<Vec>, width: nat, height: nat)
    requires |steers| == |ps| > 0
    ensures var first := Stepped(ps[0], steers[0]);
      Sweep(ps, steers, width, height) ==
        (if Gone(first, width, height) then [] else [first]) + Sweep(ps[1..], steers[1..], width, height)
  {
    var stepped := seq(|ps|, i requires 0 <= i < |ps| => Stepped(ps[i], steers[i]));
    assert stepped[1..] == seq(|ps| - 1, i requires 0 <= i < |ps| - 1 => Stepped(ps[1..][i], steers[1..][i]));
  }

  /** Filtering distributes over concatenation, so survivors keep their relative order. */
  lemma {:induction false} SurvivorsAppend(a: seq<ParticleState>, b: seq<ParticleState>, width: nat, height: nat)
    ensures Survivors(a + b, width, height) == Survivors(a, width, height) + Survivors(b, width, height)
  {
    if a != [] {
      assert (a + b)[1..] == a[1..] + b;
      SurvivorsAppend(a[1..], b, width, height);
    } else {
      assert a + b == b;
    }
  }

  /** Nothing gone survives, and every survivor comes from the input. */
  lemma {:induction false} SurvivorsSound(ps: seq<ParticleState>, width: nat, height: nat)
    ensures forall p :: p in Survivors(ps, width, height) ==> p in ps && !Gone(p, width, height)
  {
    if ps != [] {
      SurvivorsSound(ps[1..], width, height);
    }
  }

  /** Every particle that is not gone survives. */
  lemma {:induction false} SurvivorsComplete(ps: seq<ParticleState>, width: nat, height: nat)
    ensures forall i :: 0 <= i < |ps| && !Gone(ps[i], width, height) ==> ps[i] in Survivors(ps, width, height)
  {
    if ps != [] {
      var tail := ps[1..];
      SurvivorsComplete(tail, width, height);
      forall i | 0 <= i < |ps| && !Gone(ps[i], width, height)
        ensures ps[i] in Survivors(ps, width, height)
      {
        if i > 0 {
          assert ps[i] == tail[i - 1];
        }
      }
    }
  }

  /** Exactly as many particles are removed as are gone. */
  lemma {:induction false} SurvivorsCount(ps: seq<ParticleState>, width: nat, height: nat)
    ensures |Survivors(ps, width, height)| == |ps| - |GoneIndices(ps, width, height)|
  {
    if ps != [] {
      var tail := ps[1..];
      SurvivorsCount(tail, width, height);
      var goneTail := GoneIndices(tail, width, height);
      var goneAll := GoneIndices(ps, width, height);
      GoneIndicesShift(ps, width, height);
      ShiftCard(goneTail);
      if Gone(ps[0], width, height) {
        assert goneAll == Shift(goneTail) + {0};
        assert 0 !in Shift(goneTail);
      } else {
        assert goneAll == Shift(goneTail);
      }
    }
  }

  lemma GoneIndicesShift(ps: seq<ParticleState>, width: nat, height: nat)
    requires ps != []
    ensures GoneIndices(ps, width, height) - {0} == Shift(GoneIndices(ps[1..], width, height))
  {
    var tail := ps[1..];
    var goneTail := GoneIndices(tail, width, height);
    var goneAll := GoneIndices(ps, width, height);
    forall j | j in goneAll && j > 0 ensures j in Shift(goneTail) {
      assert tail[j - 1] == ps[j];
      assert j - 1 in goneTail;
    }
    forall j | j in Shift(goneTail) ensures j in goneAll && j > 0 {
      var i :| i in goneTail && j == i + 1;
      assert tail[i] == ps[j];
    }
  }

  /** The positions of the gone particles. */
  function GoneIndices(ps: seq<ParticleState>, width: nat, height: nat): set<nat>
  {
    set i: nat | i < |ps| && Gone(ps[i], width, height)
  }

  function Shift(s: set<nat>): set<nat>
  {
    set i | i in s :: i + 1
  }

  lemma {:induction false} ShiftCard(s: set<nat>)
    ensures |Shift(s)| == |s|
    decreases |s|
  {
    if s != {} {
      var x :| x in s;
      var rest := s - {x};
      ShiftCard(rest);
      forall j | j in Shift(s) ensures j in Shift(rest) + {x + 1} {
        var i :| i in s && j == i + 1;
        if i != x {
          assert i in rest;
        }
      }
      forall j | j in Shift(rest) + {x + 1} ensures j in Shift(s) {
        if j != x + 1 {
          var i :| i in rest && j == i + 1;
        }
      }
      assert Shift(s) == Shift(rest) + {x + 1};
      assert x + 1 !in Shift(rest);
    }
  }

  /** Moving and drawing keeps the colour invariant of every particle that survives. */
  lemma SweepKeepsColorOk(ps: seq<ParticleState>, steers: seq<Vec>, width: nat, height: nat)
    requires |steers| == |ps| && forall i :: 0 <= i < |ps| ==> ColorOk(ps[i])
    ensures forall p :: p in Sweep(ps, steers, width, height) ==> ColorOk(p)
  {
    var stepped := seq(|ps|, i requires 0 <= i < |ps| => Stepped(ps[i], steers[i]));
    forall i | 0 <= i < |ps| ensures ColorOk(stepped[i]) {
      DrawMonotone(Moved(ps[i], steers[i]));
    }
    SurvivorsSound(stepped, width, height);
  }

  /**
   * Moving and drawing change neither a particle's target nor its killed
   * flag, and the sweep only removes particles, so every live particle
   * still aims on the canvas.
   */
  lemma SweepKeepsLiveOnCanvas(ps: seq<ParticleState>, steers: seq<Vec>, width: nat, height: nat)
    requires |steers| == |ps| && LiveOnCanvas(ps, width, height)
    ensures LiveOnCanvas(Sweep(ps, steers, width, height), width, height)
  {
    var stepped := seq(|ps|, i requires 0 <= i < |ps| => Stepped(ps[i], steers[i]));
    var r := Sweep(ps, steers, width, height);
    SurvivorsSound(stepped, width, height);
    forall i | 0 <= i < |r| && !r[i].isKilled ensures OnCanvas(r[i].target, width, height) {
      assert r[i] in stepped;
      var j :| 0 <= j < |stepped| && stepped[j] == r[i];
      assert stepped[j].target == ps[j].target && stepped[j].isKilled == ps[j].isKilled;
    }
  }

  // ---------------------------------------------------------------------
  // Right-button kill

  /** The pointer state the mouse handlers maintain. */
  datatype Pointer = Pointer(x: real, y: real, isPressed: bool, isRightClick: bool)

  /** Within the kill radius: `sqrt(dx^2 + dy^2) < 50`, squared. */
  predicate Near(p: ParticleState, ptr: Pointer)
  {
    var dx := p.pos.x - ptr.x;
    var dy := p.pos.y - ptr.y;
    dx * dx + dy * dy < KillRadius * KillRadius
  }

  /** While the right button is held, every particle near the pointer is killed. */
  function PointerKilled(ps: seq<ParticleState>, ptr: Pointer, away: nat -> Vec): (r: seq<ParticleState>)
    ensures |r| == |ps|
  {
    if ptr.isPressed && ptr.isRightClick then
      seq(|ps|, i requires 0 <= i < |ps| => if Near(ps[i], ptr) then Killed(ps[i], away(i)) else ps[i])
    else ps
  }

  /**
   * With the right button held, the particles near the pointer are exactly
   * the ones that get killed; nothing else changes, and no particle moves.
   */
  lemma PointerKillExact(ps: seq<ParticleState>, ptr: Pointer, away: nat -> Vec)
    requires ptr.isPressed && ptr.isRightClick
    ensures var r := PointerKilled(ps, ptr, away);
      forall i :: 0 <= i < |ps| ==>
        r[i].pos == ps[i].pos &&
        (Near(ps[i], ptr) ==> r[i].isKilled) &&
        (!Near(ps[i], ptr) ==> r[i] == ps[i])
  {
    var r := PointerKilled(ps, ptr, away);
    forall i | 0 <= i < |ps|
      ensures r[i].pos == ps[i].pos
      ensures Near(ps[i], ptr) ==> r[i].isKilled
      ensures !Near(ps[i], ptr) ==> r[i] == ps[i]
    {
      if Near(ps[i], ptr) {
        assert r[i] == Killed(ps[i], away(i));
      }
    }
  }

  /**
   * A particle already killed, in this frame or an earlier one, is left as
   * it is by the pointer kill; so a second pointer kill right after the
   * first changes nothing.
   */
  lemma PointerKillIdempotent(ps: seq<ParticleState>, ptr: Pointer, away: nat -> Vec, again: nat -> Vec)
    ensures forall i :: 0 <= i < |ps| && ps[i].isKilled ==> PointerKilled(ps, ptr, away)[i] == ps[i]
    ensures PointerKilled(PointerKilled(ps, ptr, away), ptr, again) == PointerKilled(ps, ptr, away)
  {
    var r := PointerKilled(ps, ptr, away);
    if ptr.isPressed && ptr.isRightClick {
      var rr := PointerKilled(r, ptr, again);
      forall i | 0 <= i < |ps|
        ensures ps[i].isKilled ==> r[i] == ps[i]
        ensures rr[i] == r[i]
      {
        if Near(ps[i], ptr) {
          assert r[i] == Killed(ps[i], away(i));
        } else {
          assert r[i] == ps[i];
        }
        if Near(r[i], ptr) {
          assert rr[i] == Killed(r[i], again(i));
        } else {
          assert rr[i] == r[i];
        }
      }
      assert rr == r;
    }
  }

  /** Killing keeps the colour invariant. */
  lemma PointerKillKeepsColorOk(ps: seq<ParticleState>, ptr: Pointer, away: nat -> Vec)
    requires forall i :: 0 <= i < |ps| ==> ColorOk(ps[i])
    ensures forall i :: 0 <= i < |ps| ==> ColorOk(PointerKilled(ps, ptr, away)[i])
  {
    var r := PointerKilled(ps, ptr, away);
    forall i | 0 <= i < |ps| ensures ColorOk(r[i]) {
      if ptr.isPressed && ptr.isRightClick && Near(ps[i], ptr) {
        assert r[i] == Killed(ps[i], away(i));
      }
    }
  }

  /** The pointer kill only kills, so every live particle still aims on the canvas. */
  lemma PointerKillKeepsLiveOnCanvas(ps: seq<ParticleState>, ptr: Pointer, away: nat -> Vec, width: nat, height: nat)
    requires LiveOnCanvas(ps, width, height)
    ensures LiveOnCanvas(PointerKilled(ps, ptr, away), width, height)
  {
    var r := PointerKilled(ps, ptr, away);
    forall i | 0 <= i < |ps| ensures !r[i].isKilled ==> OnCanvas(r[i].target, width, height) {
      if ptr.isPressed && ptr.isRightClick && Near(ps[i], ptr) {
        assert r[i] == Killed(ps[i], away(i));
      }
    }
  }

  // ---------------------------------------------------------------------
  // Word schedule

  /** Frames a word stays before the next one is shown. */
  function Duration(key: string): (d: nat)
  {
    if key == HeroWord then HeroDuration else BaseDuration
  }

  /** The next word index, wrapping around the list. */
  function NextIndex(i: nat, count: nat): (j: nat)
    requires count > 0
    ensures j < count
  {
    (i + 1) % count
  }

  function AdvanceTimes(i: nat, count: nat, k: nat): nat
    requires count > 0
  {
    if k == 0 then i else NextIndex(AdvanceTimes(i, count, k - 1), count)
  }

  /** k advances from index i land on (i + k) mod count: the words are shown cyclically. */
  lemma {:induction false} AdvanceTimesCycles(i: nat, count: nat, k: nat)
    requires count > 0 && i < count
    ensures AdvanceTimes(i, count, k) == (i + k) % count
  {
    if k > 0 {
      AdvanceTimesCycles(i, count, k - 1);
      ModSucc(i + k - 1, count);
    }
  }

  lemma ModSucc(n: nat, count: nat)
    requires count > 0
    ensures NextIndex(n % count, count) == (n + 1) % count
  {
    var q := n / count;
    var r := n % count;
    var qc := q * count;
    assert n == qc + r;
    if r + 1 < count {
      ModUnique(n + 1, count, q, r + 1);
      ModUnique(r + 1, count, 0, r + 1);
    } else {
      assert (q + 1) * count == qc + count;
      ModUnique(n + 1, count, q + 1, 0);
      ModUnique(r + 1, count, 1, 0);
    }
  }

  /** Division with remainder is unique. */
  lemma ModUnique(n: int, count: int, q: int, r: int)
    requires count > 0 && 0 <= r < count && n == q * count + r
    ensures n % count == r
  {
    var q' := n / count;
    var r' := n % count;
    var d := q - q';
    assert d * count == r' - r;
    if d >= 1 {
      MulAtLeast(d, count);
    } else if d <= -1 {
      MulAtLeast(-d, count);
    }
  }

  lemma MulAtLeast(a: int, b: int)
    requires a >= 1 && b > 0
    ensures a * b >= b
  {
    assert (a - 1) * b >= 0;
  }

  /** After as many advances as there are words, the same word is back. */
  lemma FullCycle(i: nat, count: nat)
    requires count > 0 && i < count
    ensures AdvanceTimes(i, count, count) == i
  {
    AdvanceTimesCycles(i, count, count);
    ModUnique(i + count, count, 1, i);
  }
}
