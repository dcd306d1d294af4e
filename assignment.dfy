/**
 * The reuse-first assignment of a word's sampled targets to the particle
 * pool, as values: what nextWord does to the list of particles given the
 * opaque samples in visiting order, and what that amounts to.
 *
 * The counter `index` is the source's particleIndex. A particle pushed
 * because the pool ran out is not counted by it, so the next opaque sample
 * lands on that same new particle again. With N particles and M samples,
 * M <= N retargets the first M particles and kills the rest; M > N adds
 * only ceil((M - N) / 2) particles, and the last of them is killed at once
 * when M - N is odd.
 */
module Assignment {
  import opened Geometry
  import opened Particles
  import opened Glyph

  /** The particle list and particleIndex while nextWord runs. */
  datatype Pool = Pool(ps: seq<ParticleState>, index: nat)

  predicate PoolOk(pool: Pool)
  {
    pool.index <= |pool.ps|
  }

  function TargetOf(t: Pixel): Vec
  {
    Vec(t.x as real, t.y as real)
  }

  predicate AllOnCanvas(ts: seq<Pixel>, width: nat, height: nat)
  {
    forall k :: 0 <= k < |ts| ==> ts[k].x < width && ts[k].y < height
  }

  /** An existing particle taken for a sample: revived, then retargeted. */
  function Reused(p: ParticleState, t: Pixel, color: Rgb): ParticleState
  {
    Retargeted(p.(isKilled := false), TargetOf(t), color)
  }

  /** A particle created for a sample: spawned from its random draw, then retargeted. */
  function Fresh(d: SpawnDraw, t: Pixel, color: Rgb): ParticleState
  {
    Retargeted(Spawned(d), TargetOf(t), color)
  }

  /**
   * One opaque sample. `spawn(i)` is the random draw of the particle that
   * would be pushed at position i.
   */
  function AssignStep(pool: Pool, t: Pixel, color: Rgb, spawn: nat -> SpawnDraw): (r: Pool)
    requires PoolOk(pool)
    ensures PoolOk(r)
  {
    if pool.index < |pool.ps| then
      Pool(pool.ps[pool.index := Reused(pool.ps[pool.index], t, color)], pool.index + 1)
    else
      Pool(pool.ps + [Fresh(spawn(|pool.ps|), t, color)], pool.index)
  }

  /** All opaque samples, in visiting order. */
  function AssignAll(pool: Pool, ts: seq<Pixel>, color: Rgb, spawn: nat -> SpawnDraw): (r: Pool)
    requires PoolOk(pool)
    ensures PoolOk(r) && |r.ps| >= |pool.ps|
  {
    if ts == [] then pool
    else AssignStep(AssignAll(pool, ts[..|ts| - 1], color, spawn), ts[|ts| - 1], color, spawn)
  }

  /** The closing loop: every particle from position `from` on is killed; `away(i)` is particle i's off-scene point. */
  function KillFrom(ps: seq<ParticleState>, from: nat, away: nat -> Vec): (r: seq<ParticleState>)
    ensures |r| == |ps|
  {
    seq(|ps|, i requires 0 <= i < |ps| => if i >= from then Killed(ps[i], away(i)) else ps[i])
  }

  /** The particle list nextWord leaves behind, given its opaque samples `ts`. */
  function NextWordParticles(ps: seq<ParticleState>, ts: seq<Pixel>, color: Rgb,
                             spawn: nat -> SpawnDraw, away: nat -> Vec): seq<ParticleState>
  {
    var pool := AssignAll(Pool(ps, 0), ts, color, spawn);
    KillFrom(pool.ps, pool.index, away)
  }

  /** The particle at position i >= n after the pool grew from n particles, for samples `ts` left over. */
  function GrownAt(n: nat, ts: seq<Pixel>, i: nat, color: Rgb, spawn: nat -> SpawnDraw): ParticleState
    requires n <= i && 2 * (i - n) < |ts|
  {
    var m := i - n;
    var first := Fresh(spawn(i), ts[2 * m], color);
    if 2 * m + 1 < |ts| then Reused(first, ts[2 * m + 1], color) else first
  }

  /** While particles remain, each sample retargets the next one and nothing is added. */
  lemma {:induction false} ReusePhase(pool: Pool, ts: seq<Pixel>, color: Rgb, spawn: nat -> SpawnDraw)
    requires PoolOk(pool) && pool.index + |ts| <= |pool.ps|
    ensures var r := AssignAll(pool, ts, color, spawn);
      |r.ps| == |pool.ps| && r.index == pool.index + |ts| &&
      (forall i :: 0 <= i < |pool.ps| && (i < pool.index || i >= r.index) ==> r.ps[i] == pool.ps[i]) &&
      (forall i :: pool.index <= i < r.index ==> r.ps[i] == Reused(pool.ps[i], ts[i - pool.index], color))
  {
    if ts != [] {
      var init := ts[..|ts| - 1];
      ReusePhase(pool, init, color, spawn);
    }
  }

  /** One more sample is one more assignment step. */
  lemma AssignAllSnoc(pool: Pool, ts: seq<Pixel>, t: Pixel, color: Rgb, spawn: nat -> SpawnDraw)
    requires PoolOk(pool)
    ensures AssignAll(pool, ts + [t], color, spawn) == AssignStep(AssignAll(pool, ts, color, spawn), t, color, spawn)
  {
    assert (ts + [t])[..|ts|] == ts;
  }

  /** Visiting one more sampled offset is one more assignment step when it is opaque, none otherwise. */
  lemma AssignVisit(pool: Pool, pixels: seq<Byte>, order: seq<nat>, k: nat, width: nat, color: Rgb, spawn: nat -> SpawnDraw)
    requires PoolOk(pool) && width > 0 && OffsetsFit(order, |pixels|) && k < |order|
    ensures var before := AssignAll(pool, Targets(pixels, order[..k], width), color, spawn);
      AssignAll(pool, Targets(pixels, order[..k + 1], width), color, spawn) ==
        if Opaque(pixels, order[k]) then AssignStep(before, PixelOf(order[k], width), color, spawn) else before
  {
    var done := Targets(pixels, order[..k], width);
    TargetsSnoc(pixels, order, k, width);
    if Opaque(pixels, order[k]) {
      var t := PixelOf(order[k], width);
      assert Targets(pixels, order[..k + 1], width) == done + [t];
      AssignAllSnoc(pool, done, t, color, spawn);
    } else {
      assert Targets(pixels, order[..k + 1], width) == done;
    }
  }

  /** Visiting `a` then `b` is visiting `a + b`. */
  lemma {:induction false} AssignAllAppend(pool: Pool, a: seq<Pixel>, b: seq<Pixel>, color: Rgb, spawn: nat -> SpawnDraw)
    requires PoolOk(pool)
    ensures AssignAll(pool, a + b, color, spawn) == AssignAll(AssignAll(pool, a, color, spawn), b, color, spawn)
    decreases |b|
  {
    if b == [] {
      assert a + b == a;
    } else {
      var b' := b[..|b| - 1];
      assert (a + b)[..|a + b| - 1] == a + b';
      AssignAllAppend(pool, a, b', color, spawn);
    }
  }

  /**
   * Once every existing particle is taken, samples pair up: the first of a
   * pair pushes a new particle, the second retargets that same particle.
   */
  lemma {:induction false} GrowPhase(ps: seq<ParticleState>, ts: seq<Pixel>, color: Rgb, spawn: nat -> SpawnDraw)
    ensures var r := AssignAll(Pool(ps, |ps|), ts, color, spawn);
      |r.ps| == |ps| + (|ts| + 1) / 2 && r.index == |ps| + |ts| / 2 &&
      r.ps[..|ps|] == ps &&
      (forall i :: |ps| <= i < |r.ps| ==> r.ps[i] == GrownAt(|ps|, ts, i, color, spawn))
  {
    var n := |ps|;
    var m := |ts|;
    if m > 0 {
      var init := ts[..m - 1];
      GrowPhase(ps, init, color, spawn);
      var q := AssignAll(Pool(ps, n), init, color, spawn);
      assert AssignAll(Pool(ps, n), ts, color, spawn) == AssignStep(q, ts[m - 1], color, spawn);
      GrowStep(n, q, ts, color, spawn);
    }
  }

  /** One more sample in the growing phase, given the shape after the samples before it. */
  lemma GrowStep(n: nat, q: Pool, ts: seq<Pixel>, color: Rgb, spawn: nat -> SpawnDraw)
    requires |ts| > 0 && PoolOk(q)
    requires |q.ps| == n + |ts| / 2 && q.index == n + (|ts| - 1) / 2
    requires forall i :: n <= i < |q.ps| ==> q.ps[i] == GrownAt(n, ts[..|ts| - 1], i, color, spawn)
    ensures var r := AssignStep(q, ts[|ts| - 1], color, spawn);
      |r.ps| == n + (|ts| + 1) / 2 && r.index == n + |ts| / 2 &&
      r.ps[..n] == q.ps[..n] &&
      (forall i :: n <= i < |r.ps| ==> r.ps[i] == GrownAt(n, ts, i, color, spawn))
  {
    var m := |ts|;
    var init := ts[..m - 1];
    var t := ts[m - 1];
    var r := AssignStep(q, t, color, spawn);
    forall i | n <= i < |q.ps| && 2 * (i - n) + 1 < m - 1
      ensures GrownAt(n, init, i, color, spawn) == GrownAt(n, ts, i, color, spawn)
    {
      assert init[2 * (i - n)] == ts[2 * (i - n)] && init[2 * (i - n) + 1] == ts[2 * (i - n) + 1];
    }
    if m % 2 == 1 {
      assert q.index == |q.ps|;
      assert r.ps == q.ps + [Fresh(spawn(|q.ps|), t, color)];
      assert GrownAt(n, ts, |q.ps|, color, spawn) == Fresh(spawn(|q.ps|), t, color);
    } else {
      var last := |q.ps| - 1;
      assert q.index == last;
      assert q.ps[last] == GrownAt(n, init, last, color, spawn) == Fresh(spawn(last), ts[m - 2], color);
      assert r.ps == q.ps[last := Reused(q.ps[last], t, color)];
      assert r.ps[last] == GrownAt(n, ts, last, color, spawn);
    }
  }

  /**
   * At most as many samples as particles: the first M particles are revived
   * and retargeted in sample order, the others are killed, none is added.
   */
  lemma FewerSamples(ps: seq<ParticleState>, ts: seq<Pixel>, color: Rgb,
                     spawn: nat -> SpawnDraw, away: nat -> Vec, width: nat, height: nat)
    requires |ts| <= |ps| && AllOnCanvas(ts, width, height)
    ensures var r := NextWordParticles(ps, ts, color, spawn, away);
      |r| == |ps| && forall i :: 0 <= i < |ts| ==> r[i] == Reused(ps[i], ts[i], color)
    ensures var r := NextWordParticles(ps, ts, color, spawn, away);
      forall i :: 0 <= i < |ts| ==>
        !r[i].isKilled && OnCanvas(r[i].target, width, height) && r[i].targetColor == color && r[i].colorWeight == 0.0
    ensures var r := NextWordParticles(ps, ts, color, spawn, away);
      forall i :: |ts| <= i < |ps| ==> r[i] == Killed(ps[i], away(i)) && r[i].isKilled
  {
    var pool := AssignAll(Pool(ps, 0), ts, color, spawn);
    ReusePhase(Pool(ps, 0), ts, color, spawn);
    var r := KillFrom(pool.ps, pool.index, away);
    assert r == NextWordParticles(ps, ts, color, spawn, away);
    forall i | 0 <= i < |ts|
      ensures r[i] == Reused(ps[i], ts[i], color)
      ensures !r[i].isKilled && OnCanvas(r[i].target, width, height) && r[i].targetColor == color && r[i].colorWeight == 0.0
    {
      assert r[i] == pool.ps[i];
    }
    forall i | |ts| <= i < |ps|
      ensures r[i] == Killed(ps[i], away(i)) && r[i].isKilled
    {
      assert r[i] == Killed(pool.ps[i], away(i));
    }
  }

  /** The pool after the samples, before the closing kill loop, when samples outnumber particles. */
  lemma MoreSamplesPool(ps: seq<ParticleState>, ts: seq<Pixel>, color: Rgb, spawn: nat -> SpawnDraw)
    requires |ts| > |ps|
    ensures var pool := AssignAll(Pool(ps, 0), ts, color, spawn);
      var n := |ps|;
      |pool.ps| == n + (|ts| - n + 1) / 2 && pool.index == n + (|ts| - n) / 2 &&
      (forall i :: 0 <= i < n ==> pool.ps[i] == Reused(ps[i], ts[i], color)) &&
      (forall i :: n <= i < |pool.ps| ==> pool.ps[i] == GrownAt(n, ts[n..], i, color, spawn))
  {
    var n := |ps|;
    var front, extra := ts[..n], ts[n..];
    var q := FrontReused(ps, ts, color, spawn);
    var pool := AssignAll(q, extra, color, spawn);
    assert ts == front + extra;
    AssignAllAppend(Pool(ps, 0), front, extra, color, spawn);
    GrowPhase(q.ps, extra, color, spawn);
    assert pool.ps[..n] == q.ps;
    forall i | 0 <= i < n
      ensures pool.ps[i] == Reused(ps[i], ts[i], color)
    {
      assert pool.ps[i] == pool.ps[..n][i];
    }
  }

  /** The first N samples retarget the N particles in order, and every particle is taken. */
  lemma FrontReused(ps: seq<ParticleState>, ts: seq<Pixel>, color: Rgb, spawn: nat -> SpawnDraw) returns (q: Pool)
    requires |ts| >= |ps|
    ensures q == AssignAll(Pool(ps, 0), ts[..|ps|], color, spawn)
    ensures q == Pool(q.ps, |ps|) && |q.ps| == |ps|
    ensures forall i :: 0 <= i < |ps| ==> q.ps[i] == Reused(ps[i], ts[i], color)
  {
    var front := ts[..|ps|];
    q := AssignAll(Pool(ps, 0), front, color, spawn);
    ReusePhase(Pool(ps, 0), front, color, spawn);
    forall i | 0 <= i < |ps|
      ensures q.ps[i] == Reused(ps[i], ts[i], color)
    {
      assert front[i] == ts[i];
    }
  }

  /** The particle list when samples outnumber particles, position by position. */
  lemma MoreSamplesShape(ps: seq<ParticleState>, ts: seq<Pixel>, color: Rgb,
                         spawn: nat -> SpawnDraw, away: nat -> Vec)
    requires |ts| > |ps|
    ensures var r := NextWordParticles(ps, ts, color, spawn, away);
      |r| == |ps| + (|ts| - |ps| + 1) / 2 &&
      (forall i :: 0 <= i < |ps| ==> r[i] == Reused(ps[i], ts[i], color)) &&
      (forall i :: |ps| <= i < |r| ==>
        r[i] == if 2 * (i - |ps|) + 1 < |ts| - |ps| then GrownAt(|ps|, ts[|ps|..], i, color, spawn)
                else Killed(GrownAt(|ps|, ts[|ps|..], i, color, spawn), away(i)))
  {
    var pool := AssignAll(Pool(ps, 0), ts, color, spawn);
    MoreSamplesPool(ps, ts, color, spawn);
    var r := KillFrom(pool.ps, pool.index, away);
    assert r == NextWordParticles(ps, ts, color, spawn, away);
    forall i | 0 <= i < |ps|
      ensures r[i] == Reused(ps[i], ts[i], color)
    {
      assert r[i] == pool.ps[i];
    }
    forall i | |ps| <= i < |r|
      ensures r[i] == if 2 * (i - |ps|) + 1 < |ts| - |ps| then GrownAt(|ps|, ts[|ps|..], i, color, spawn)
                      else Killed(GrownAt(|ps|, ts[|ps|..], i, color, spawn), away(i))
    {
      if i < pool.index {
        assert r[i] == pool.ps[i];
      } else {
        assert r[i] == Killed(pool.ps[i], away(i));
      }
    }
  }

  /**
   * More samples than particles: all N particles are retargeted, the pool
   * grows by ceil((M - N) / 2), and the last new particle is killed exactly
   * when M - N is odd.
   */
  lemma MoreSamples(ps: seq<ParticleState>, ts: seq<Pixel>, color: Rgb,
                    spawn: nat -> SpawnDraw, away: nat -> Vec, width: nat, height: nat)
    requires |ts| > |ps| && AllOnCanvas(ts, width, height)
    ensures var r := NextWordParticles(ps, ts, color, spawn, away);
      |r| == |ps| + (|ts| - |ps| + 1) / 2
    ensures var r := NextWordParticles(ps, ts, color, spawn, away);
      forall i :: 0 <= i < |ps| ==> r[i] == Reused(ps[i], ts[i], color)
    ensures var r := NextWordParticles(ps, ts, color, spawn, away);
      forall i :: |ps| <= i < |r| ==>
        r[i] == if 2 * (i - |ps|) + 1 < |ts| - |ps| then GrownAt(|ps|, ts[|ps|..], i, color, spawn)
                else Killed(GrownAt(|ps|, ts[|ps|..], i, color, spawn), away(i))
    ensures var r := NextWordParticles(ps, ts, color, spawn, away);
      (forall i :: 0 <= i < |r| - 1 ==> !r[i].isKilled) &&
      (r[|r| - 1].isKilled <==> (|ts| - |ps|) % 2 == 1)
    ensures var r := NextWordParticles(ps, ts, color, spawn, away);
      forall i :: 0 <= i < |r| && !r[i].isKilled ==> OnCanvas(r[i].target, width, height)
  {
    NextWordLiveOnCanvas(ps, ts, color, spawn, away, width, height);
    MoreSamplesShape(ps, ts, color, spawn, away);
    OnlyLastKilled(NextWordParticles(ps, ts, color, spawn, away), ps, ts, color, spawn, away);
  }

  /** Of a particle list with the shape MoreSamplesShape states, only the last particle can be killed. */
  lemma OnlyLastKilled(r: seq<ParticleState>, ps: seq<ParticleState>, ts: seq<Pixel>, color: Rgb,
                       spawn: nat -> SpawnDraw, away: nat -> Vec)
    requires |ts| > |ps| && |r| == |ps| + (|ts| - |ps| + 1) / 2
    requires forall i :: 0 <= i < |ps| ==> r[i] == Reused(ps[i], ts[i], color)
    requires forall i :: |ps| <= i < |r| ==>
      r[i] == if 2 * (i - |ps|) + 1 < |ts| - |ps| then GrownAt(|ps|, ts[|ps|..], i, color, spawn)
              else Killed(GrownAt(|ps|, ts[|ps|..], i, color, spawn), away(i))
    ensures (forall i :: 0 <= i < |r| - 1 ==> !r[i].isKilled) &&
      (r[|r| - 1].isKilled <==> (|ts| - |ps|) % 2 == 1)
  {
    var n := |ps|;
    var extra := ts[n..];
    forall i | 0 <= i < |r| - 1
      ensures !r[i].isKilled
    {
      if i < n {
        assert r[i] == Reused(ps[i], ts[i], color);
      } else {
        assert 2 * (i - n) + 1 < |extra|;
        assert r[i] == GrownAt(n, extra, i, color, spawn);
      }
    }
    var last := |r| - 1;
    if |extra| % 2 == 0 {
      assert 2 * (last - n) + 1 < |extra|;
      assert r[last] == GrownAt(n, extra, last, color, spawn);
    } else {
      assert r[last] == Killed(GrownAt(n, extra, last, color, spawn), away(last));
    }
  }

  /** nextWord never removes particles: the pool only keeps or grows its length. */
  lemma NeverShrinks(ps: seq<ParticleState>, ts: seq<Pixel>, color: Rgb,
                     spawn: nat -> SpawnDraw, away: nat -> Vec)
    ensures |NextWordParticles(ps, ts, color, spawn, away)| >= |ps|
  {
  }

  /** Assigning samples keeps every particle's colour weight in [0, 1] and its rate non-negative. */
  lemma {:induction false} AssignAllKeepsColorOk(pool: Pool, ts: seq<Pixel>, color: Rgb, spawn: nat -> SpawnDraw)
    requires PoolOk(pool) && AllColorOk(pool.ps)
    ensures AllColorOk(AssignAll(pool, ts, color, spawn).ps)
  {
    if ts != [] {
      var q := AssignAll(pool, ts[..|ts| - 1], color, spawn);
      AssignAllKeepsColorOk(pool, ts[..|ts| - 1], color, spawn);
      var t := ts[|ts| - 1];
      if q.index < |q.ps| {
        RetargetContinuous(q.ps[q.index].(isKilled := false), TargetOf(t), color);
      } else {
        RetargetContinuous(Spawned(spawn(|q.ps|)), TargetOf(t), color);
      }
    }
  }

  /** nextWord keeps the colour invariant of the whole pool. */
  lemma NextWordKeepsColorOk(ps: seq<ParticleState>, ts: seq<Pixel>, color: Rgb,
                             spawn: nat -> SpawnDraw, away: nat -> Vec)
    requires AllColorOk(ps)
    ensures AllColorOk(NextWordParticles(ps, ts, color, spawn, away))
  {
    var pool := AssignAll(Pool(ps, 0), ts, color, spawn);
    AssignAllKeepsColorOk(Pool(ps, 0), ts, color, spawn);
    var r := KillFrom(pool.ps, pool.index, away);
    forall i | 0 <= i < |r| ensures ColorOk(r[i]) {
      if i >= pool.index {
        assert r[i] == Killed(pool.ps[i], away(i));
      }
    }
  }

  /**
   * Every particle of `r` that the assignment of `ts` from `pool`
   * retargeted (from `pool.index` up to `r.index`) or pushed (past the old
   * end) aims at the pixel of one of the samples.
   */
  predicate Aimed(pool: Pool, ts: seq<Pixel>, r: Pool)
  {
    forall i :: pool.index <= i < |r.ps| && (i < r.index || i >= |pool.ps|) ==>
      exists k :: 0 <= k < |ts| && r.ps[i].target == TargetOf(ts[k])
  }

  /** Assigning samples aims every particle it touches at one of the samples' pixels. */
  lemma {:induction false} AssignAllAims(pool: Pool, ts: seq<Pixel>, color: Rgb, spawn: nat -> SpawnDraw)
    requires PoolOk(pool)
    ensures Aimed(pool, ts, AssignAll(pool, ts, color, spawn))
  {
    if ts != [] {
      var init := ts[..|ts| - 1];
      var t := ts[|ts| - 1];
      AssignAllAims(pool, init, color, spawn);
      var q := AssignAll(pool, init, color, spawn);
      var r := AssignStep(q, t, color, spawn);
      assert AssignAll(pool, ts, color, spawn) == r;
      forall i | pool.index <= i < |r.ps| && (i < r.index || i >= |pool.ps|)
        ensures exists k :: 0 <= k < |ts| && r.ps[i].target == TargetOf(ts[k])
      {
        if (q.index < |q.ps| && i != q.index) || (q.index == |q.ps| && i < |q.ps|) {
          assert r.ps[i] == q.ps[i];
          var k :| 0 <= k < |init| && q.ps[i].target == TargetOf(init[k]);
          assert ts[k] == init[k];
        } else {
          assert r.ps[i].target == TargetOf(ts[|ts| - 1]);
        }
      }
    }
  }

  /**
   * After nextWord every particle that is not killed aims at one of the
   * word's samples, so at a point on the canvas: the ones not retargeted
   * are exactly the ones the closing loop kills.
   */
  lemma NextWordLiveOnCanvas(ps: seq<ParticleState>, ts: seq<Pixel>, color: Rgb,
                             spawn: nat -> SpawnDraw, away: nat -> Vec, width: nat, height: nat)
    requires AllOnCanvas(ts, width, height)
    ensures LiveOnCanvas(NextWordParticles(ps, ts, color, spawn, away), width, height)
  {
    var pool := AssignAll(Pool(ps, 0), ts, color, spawn);
    AssignAllAims(Pool(ps, 0), ts, color, spawn);
    assert Aimed(Pool(ps, 0), ts, pool);
    var r := KillFrom(pool.ps, pool.index, away);
    forall i | 0 <= i < |r| ensures !r[i].isKilled ==> OnCanvas(r[i].target, width, height) {
      if i < pool.index {
        assert r[i] == pool.ps[i];
        var k :| 0 <= k < |ts| && pool.ps[i].target == TargetOf(ts[k]);
        assert ts[k].x < width && ts[k].y < height;
      } else {
        assert r[i] == Killed(pool.ps[i], away(i));
      }
    }
  }
}
