/**
 * The component's mutable state: the particle list, the floaters and the
 * word and frame counters, held by one `Swarm` object whose methods are
 * nextWord and the parts of animate that change that state. Each method is
 * proved against the value-level functions of the other modules.
 */
module Swarm {
  import opened Geometry
  import opened Particles
  import opened Glyph
  import opened Assignment
  import opened Animation

  /** What nextWord takes from outside for one word. */
  datatype WordInput = WordInput(
    pixels: seq<Byte>,         // the RGBA buffer of the word rendered off-screen
    choices: seq<nat>,         // the shuffle's j for every i
    draw: (Unit, Unit, Unit),  // the random colour of a word without a fixed one
    spawn: nat -> SpawnDraw,   // the draws of a particle pushed at position i
    away: nat -> Vec)          // the off-scene point of the particle killed at position i

  /** The rendered buffer covers the canvas and the shuffle draws are in range. */
  predicate InputOk(input: WordInput, width: nat, height: nat)
  {
    |input.pixels| == width * height * 4 &&
    ChoicesOk(input.choices, |SampleOffsets(|input.pixels|)|)
  }

  function StatesOf(ps: seq<Particle>): seq<ParticleState>
    reads ps
  {
    seq(|ps|, i reads ps requires 0 <= i < |ps| => ps[i].State())
  }

  lemma StatesOfCons(p: Particle, ps: seq<Particle>)
    ensures StatesOf([p] + ps) == [p.State()] + StatesOf(ps)
  {
  }

  /** `painted` holds the colours particles i, i + 1, ... were drawn with. */
  predicate Painted(painted: seq<RgbInt>, start: seq<ParticleState>, steers: seq<Vec>, i: nat)
  {
    i <= |start| == |steers| && |painted| == |start| - i &&
    forall j :: 0 <= j < |painted| ==> painted[j] == DrawnColor(Moved(start[i + j], steers[i + j]))
  }

  lemma PaintedCons(painted: seq<RgbInt>, color: RgbInt, start: seq<ParticleState>, steers: seq<Vec>, i: nat)
    requires Painted(painted, start, steers, i + 1) && color == DrawnColor(Moved(start[i], steers[i]))
    ensures Painted([color] + painted, start, steers, i)
  {
    var r := [color] + painted;
    forall j | 0 <= j < |r| ensures r[j] == DrawnColor(Moved(start[i + j], steers[i + j])) {
      if j > 0 {
        assert r[j] == painted[j - 1];
      }
    }
  }

  /** In the backward loop, the particle at i is none of the particles after it. */
  lemma NotInTail(ps: seq<Particle>, all: seq<Particle>, i: nat)
    requires i < |all| && i < |ps| && ps[..i + 1] == all[..i + 1] && Distinct(all)
    requires forall k :: i + 1 <= k < |ps| ==> ps[k] in all[i + 1..]
    ensures ps[i] !in ps[i + 1..]
  {
    var tail := ps[i + 1..];
    assert ps[i] == all[i];
    forall p | p in tail ensures p != ps[i] {
      var k :| 0 <= k < |tail| && tail[k] == p;
      assert ps[i + 1 + k] in all[i + 1..];
      var m :| 0 <= m < |all[i + 1..]| && all[i + 1..][m] == p;
      assert all[i + 1 + m] == p;
    }
  }

  predicate Distinct(ps: seq<Particle>)
  {
    forall i, j :: 0 <= i < j < |ps| ==> ps[i] != ps[j]
  }

  /** Removing one element keeps the others distinct. */
  lemma DistinctRemove(ps: seq<Particle>, i: nat)
    requires Distinct(ps) && i < |ps|
    ensures Distinct(ps[..i] + ps[i + 1..])
  {
    var r := ps[..i] + ps[i + 1..];
    forall a, b | 0 <= a < b < |r| ensures r[a] != r[b] {
      var a' := if a < i then a else a + 1;
      var b' := if b < i then b else b + 1;
      assert r[a] == ps[a'] && r[b] == ps[b'];
    }
  }

  class Swarm {
    const words: seq<string>
    const width: nat
    const height: nat
    var particles: seq<Particle>
    var floaters: seq<Floater>
    var frameCount: nat
    var wordIndex: nat
    var activeWord: string
    var wordScale: real
    var wordFrame: nat

    /**
     * The word list is not empty and the index points into it; no particle
     * appears twice in the list; every particle keeps its colour invariant;
     * every particle that is not killed aims at a point on the canvas;
     * every floater is on the canvas or one step outside heading back.
     */
    predicate Valid()
      reads this, particles
    {
      |words| > 0 && wordIndex < |words| && width > 0 && height > 0 &&
      Distinct(particles) && AllColorOk(StatesOf(particles)) &&
      LiveOnCanvas(StatesOf(particles), width, height) &&
      forall f :: f in floaters ==> FloaterOk(f, width, height)
    }

    function States(): seq<ParticleState>
      reads this, particles
    {
      StatesOf(particles)
    }

    /** Mounting: seed the floaters, then show the first word. */
    constructor (words: seq<string>, width: nat, height: nat, seeds: seq<FloaterDraw>, first: WordInput)
      requires |words| > 0 && width > 0 && height > 0 && |seeds| == FloaterCount && InputOk(first, width, height)
      ensures Valid()
      ensures this.words == words && this.width == width && this.height == height
      ensures floaters == Seeded(seeds, width, height)
      ensures wordIndex == 0 && activeWord == words[0] && frameCount == 0 && wordFrame == 0 && wordScale == 1.0
      ensures States() == NextWordParticles([], WordTargets(first.pixels, first.choices, width),
                                            WordColor(CleanKey(words[0]), 0, first.draw), first.spawn, first.away)
      ensures forall p :: p in particles ==> fresh(p)
    {
      this.words, this.width, this.height := words, width, height;
      particles := [];
      frameCount, wordIndex, activeWord, wordScale, wordFrame := 0, 0, "", 1.0, 0;
      var fs: seq<Floater> := [];
      var i := 0;
      while i < |seeds|
        invariant 0 <= i <= |seeds|
        invariant fs == Seeded(seeds[..i], width, height)
      {
        fs := fs + [SeedFloater(seeds[i], width, height)];
        i := i + 1;
      }
      assert seeds[..i] == seeds;
      floaters := fs;
      new;
      NextWord(words[0], 0, first);
    }

    /**
     * nextWord: the word becomes the active word, its opaque samples are
     * assigned reuse-first to the particles, the unused particles are killed.
     */
    method NextWord(word: string, index: nat, input: WordInput)
      requires Valid() && InputOk(input, width, height)
      modifies this`activeWord, this`wordScale, this`wordFrame, this`particles, particles
      ensures Valid()
      ensures activeWord == word && wordScale == 1.0 && wordFrame == 0
      ensures States() == NextWordParticles(old(States()), WordTargets(input.pixels, input.choices, width),
                                            WordColor(CleanKey(word), index, input.draw), input.spawn, input.away)
      ensures |particles| >= |old(particles)| && particles[..|old(particles)|] == old(particles)
      ensures forall i :: |old(particles)| <= i < |particles| ==> fresh(particles[i])
    {
      activeWord := word;
      var cleanWord := CleanKey(word);
      wordScale := 1.0;
      wordFrame := 0;
      var color := WordColor(cleanWord, index, input.draw);
      ghost var before := States();
      PlaceWord(input, color);
      WordTargetsOnCanvas(input.pixels, input.choices, width, height);
      ghost var ts := WordTargets(input.pixels, input.choices, width);
      NextWordKeepsColorOk(before, ts, color, input.spawn, input.away);
      assert AllOnCanvas(ts, width, height);
      NextWordLiveOnCanvas(before, ts, color, input.spawn, input.away, width, height);
    }

    /**
     * The particle work of nextWord: collect and shuffle the sampled
     * offsets, assign the opaque ones reuse-first, kill the particles left.
     */
    method PlaceWord(input: WordInput, color: Rgb)
      requires width > 0 && InputOk(input, width, height) && Distinct(particles)
      modifies this`particles, particles
      ensures |input.pixels| % 4 == 0 && Distinct(particles)
      ensures States() == NextWordParticles(old(States()), WordTargets(input.pixels, input.choices, width),
                                            color, input.spawn, input.away)
      ensures |particles| >= |old(particles)| && particles[..|old(particles)|] == old(particles)
      ensures forall i :: |old(particles)| <= i < |particles| ==> fresh(particles[i])
    {
      var pixels := input.pixels;
      WordOrder(pixels, input.choices, width, height);
      var order := SampleOrder(|pixels|, input.choices);
      ghost var ts := WordTargets(pixels, input.choices, width);
      ghost var before := States();
      var particleIndex := AssignSamples(pixels, order, color, input.spawn);
      ghost var pool := AssignAll(Pool(before, 0), ts, color, input.spawn);
      assert States() == pool.ps && particleIndex == pool.index;
      KillRemaining(particleIndex, input.away);
    }

    /** The sampled byte offsets of a buffer of `len` bytes, collected and then shuffled in place. */
    static method SampleOrder(len: nat, choices: seq<nat>) returns (order: seq<nat>)
      requires ChoicesOk(choices, |SampleOffsets(len)|)
      ensures order == Shuffled<nat>(SampleOffsets(len), choices)
      ensures multiset(order) == multiset(SampleOffsets(len))
    {
      var coords := CollectOffsets(len);
      var coordsIndexes := new nat[|coords|];
      forall k | 0 <= k < coordsIndexes.Length {
        coordsIndexes[k] := coords[k];
      }
      assert coordsIndexes[..] == coords;
      Shuffle(coordsIndexes, choices);
      order := coordsIndexes[..];
    }

    /** The sample loop of nextWord, over the byte offsets in `order`. */
    method AssignSamples(pixels: seq<Byte>, order: seq<nat>, color: Rgb, spawn: nat -> SpawnDraw)
      returns (particleIndex: nat)
      requires width > 0 && OffsetsFit(order, |pixels|) && Distinct(particles)
      modifies this`particles, particles
      ensures Distinct(particles) && particleIndex <= |particles|
      ensures Pool(States(), particleIndex) == AssignAll(Pool(old(States()), 0), Targets(pixels, order, width), color, spawn)
      ensures |particles| >= |old(particles)| && particles[..|old(particles)|] == old(particles)
      ensures forall i :: |old(particles)| <= i < |particles| ==> fresh(particles[i])
    {
      ghost var start := States();
      particleIndex := 0;
      var k := 0;
      while k < |order|
        invariant 0 <= k <= |order|
        invariant Distinct(particles) && particleIndex <= |particles|
        invariant |particles| >= |old(particles)| && particles[..|old(particles)|] == old(particles)
        invariant forall i :: 0 <= i < |particles| ==> particles[i] in old(particles) || fresh(particles[i])
        invariant Pool(States(), particleIndex) == AssignAll(Pool(start, 0), Targets(pixels, order[..k], width), color, spawn)
      {
        ghost var prior := particles;
        particleIndex := Visit(pixels, order, k, particleIndex, color, spawn, start);
        assert particles[..|old(particles)|] == prior[..|old(particles)|];
        k := k + 1;
      }
      assert order[..k] == order;
      forall i | |old(particles)| <= i < |particles| ensures fresh(particles[i]) {
        if particles[i] in old(particles) {
          assert false;
        }
      }
    }

    /** One iteration of the sample loop: the offset order[k] is read and, when opaque, taken. */
    method Visit(pixels: seq<Byte>, order: seq<nat>, k: nat, particleIndex: nat, color: Rgb,
                 spawn: nat -> SpawnDraw, ghost start: seq<ParticleState>)
      returns (next: nat)
      requires width > 0 && OffsetsFit(order, |pixels|) && k < |order|
      requires Distinct(particles) && particleIndex <= |particles|
      requires Pool(States(), particleIndex) == AssignAll(Pool(start, 0), Targets(pixels, order[..k], width), color, spawn)
      modifies this`particles, particles
      ensures Distinct(particles) && next <= |particles|
      ensures Pool(States(), next) == AssignAll(Pool(start, 0), Targets(pixels, order[..k + 1], width), color, spawn)
      ensures |particles| >= |old(particles)| && particles[..|old(particles)|] == old(particles)
      ensures forall i :: 0 <= i < |particles| ==> particles[i] in old(particles) || fresh(particles[i])
    {
      var pixelIndex := order[k];
      AssignVisit(Pool(start, 0), pixels, order, k, width, color, spawn);
      next := particleIndex;
      var alpha := pixels[pixelIndex + 3];
      if alpha > 0 {
        var x := (pixelIndex / 4) % width;
        var y := (pixelIndex / 4) / width;
        next := TakeSample(particleIndex, x, y, color, spawn);
      }
    }

    /**
     * One opaque sample at pixel (x, y): the particle at particleIndex is
     * revived and counted, or, when none is left, a new particle is pushed
     * without being counted; either one then gets the new target and colour.
     */
    method TakeSample(particleIndex: nat, x: nat, y: nat, color: Rgb, spawn: nat -> SpawnDraw)
      returns (next: nat)
      requires Distinct(particles) && particleIndex <= |particles|
      modifies this`particles, particles
      ensures Distinct(particles) && next <= |particles|
      ensures Pool(States(), next) == AssignStep(Pool(old(States()), particleIndex), Pixel(x, y), color, spawn)
      ensures |particles| >= |old(particles)| && particles[..|old(particles)|] == old(particles)
      ensures forall i :: |old(particles)| <= i < |particles| ==> fresh(particles[i])
      ensures forall p :: p in particles ==> p in old(particles) || fresh(p)
    {
      ghost var before := States();
      var particle: Particle;
      next := particleIndex;
      if next < |particles| {
        particle := particles[next];
        particle.isKilled := false;
        next := next + 1;
        assert States() == before[particleIndex := before[particleIndex].(isKilled := false)];
      } else {
        particle := Push(spawn(|particles|));
      }
      ghost var changed := if next == particleIndex then |particles| - 1 else particleIndex;
      ghost var mid := States();
      assert particles[changed] == particle && mid[changed] == particle.State();
      label Retarget:
      particle.Retarget(Vec(x as real, y as real), color);
      forall i | 0 <= i < |particles|
        ensures States()[i] == mid[changed := particle.State()][i]
      {
        if i != changed {
          assert particles[i].State() == old@Retarget(particles[i].State());
        }
      }
      assert States() == mid[changed := Retargeted(mid[changed], Vec(x as real, y as real), color)];
    }

    /** A particle created from its random draw and pushed at the end of the list. */
    method Push(draw: SpawnDraw) returns (particle: Particle)
      requires Distinct(particles)
      modifies this`particles
      ensures fresh(particle) && particles == old(particles) + [particle] && Distinct(particles)
      ensures States() == old(States()) + [Spawned(draw)]
    {
      particle := new Particle();
      particle.pos := draw.pos;
      particle.maxSpeed := draw.speed * 6.0 + 4.0;
      particle.maxForce := particle.maxSpeed * 0.05;
      particle.particleSize := draw.size * 6.0 + 6.0;
      particle.colorBlendRate := draw.blend * 0.0275 + 0.0025;
      assert particle.State() == Spawned(draw);
      particles := particles + [particle];
    }

    /** The closing loop of nextWord: every particle from position `from` on is killed. */
    method KillRemaining(from: nat, away: nat -> Vec)
      requires Distinct(particles)
      modifies particles
      ensures States() == KillFrom(old(States()), from, away)
    {
      ghost var start := States();
      var i := from;
      while i < |particles|
        invariant from <= i || |particles| <= from
        invariant States() == seq(|start|, j requires 0 <= j < |start| =>
                                    if from <= j < i then Killed(start[j], away(j)) else start[j])
      {
        KillAt(i, away(i));
        i := i + 1;
      }
    }

    /** The start of animate: count the frame and set the hero word's heartbeat scale. */
    method BeginFrame(sine: real)
      requires Valid()
      modifies this`wordFrame, this`wordScale
      ensures Valid()
      ensures wordFrame == old(wordFrame) + 1
      ensures wordScale == HeartbeatScale(CleanKey(activeWord), wordFrame, sine)
    {
      var currentWord := CleanKey(activeWord);
      wordFrame := wordFrame + 1;
      if currentWord == HeroWord && wordFrame > SettleFrames {
        var t := wordFrame - SettleFrames;
        if t <= Beats * BeatFrames {
          var envelope := 1.0 - Min((t / BeatFrames) as real / Beats as real, 0.9);
          wordScale := 1.0 + 0.12 * sine * envelope;
        } else {
          wordScale := 1.0;
        }
      } else {
        wordScale := 1.0;
      }
    }

    /** Every floater moves by its velocity and bounces off the canvas edges. */
    method UpdateFloaters()
      requires Valid()
      modifies this`floaters
      ensures Valid()
      ensures floaters == FloatersStepped(old(floaters), width, height)
    {
      var i := 0;
      while i < |floaters|
        invariant 0 <= i <= |floaters| == |old(floaters)|
        invariant floaters[..i] == FloatersStepped(old(floaters)[..i], width, height)
        invariant floaters[i..] == old(floaters)[i..]
      {
        var floater := floaters[i];
        var pos := Vec(floater.pos.x + floater.vel.x, floater.pos.y + floater.vel.y);
        var vel := floater.vel;
        if pos.x < 0.0 || pos.x > width as real {
          vel := vel.(x := -vel.x);
        }
        if pos.y < 0.0 || pos.y > height as real {
          vel := vel.(y := -vel.y);
        }
        assert floater.(pos := pos, vel := vel) == FloaterStep(old(floaters)[i], width, height);
        floaters := floaters[i := floater.(pos := pos, vel := vel)];
        assert old(floaters)[..i + 1] == old(floaters)[..i] + [old(floaters)[i]];
        i := i + 1;
      }
      assert floaters == floaters[..i];
      assert old(floaters) == old(floaters)[..i];
    }

    /**
     * The backward particle loop of animate: each particle moves by its
     * steering force and is drawn; a killed particle outside the canvas is
     * spliced out. `painted[i]` is the colour particle i was drawn with.
     */
    method UpdateParticles(steers: seq<Vec>) returns (painted: seq<RgbInt>)
      requires Valid() && |steers| == |particles|
      modifies this`particles, particles
      ensures Valid()
      ensures States() == Sweep(old(States()), steers, width, height)
      ensures |painted| == |old(particles)|
      ensures forall i :: 0 <= i < |painted| ==> painted[i] == DrawnColor(Moved(old(States())[i], steers[i]))
      ensures forall p :: p in particles ==> p in old(particles)
    {
      ghost var start := States();
      painted := SweepAll(steers);
      SweepKeepsColorOk(start, steers, width, height);
      SweepKeepsLiveOnCanvas(start, steers, width, height);
    }

    /** The loop of UpdateParticles, from the last particle down to the first. */
    method SweepAll(steers: seq<Vec>) returns (painted: seq<RgbInt>)
      requires Distinct(particles) && |steers| == |particles|
      modifies this`particles, particles
      ensures Distinct(particles)
      ensures States() == Sweep(old(States()), steers, width, height)
      ensures Painted(painted, old(States()), steers, 0)
      ensures forall p :: p in particles ==> p in old(particles)
    {
      ghost var all := particles;
      ghost var start := States();
      painted := [];
      var i := |particles|;
      while i > 0
        invariant 0 <= i <= |all| && i <= |particles|
        invariant particles[..i] == all[..i]
        invariant forall k :: i <= k < |particles| ==> particles[k] in all[i..]
        invariant Distinct(all) && Distinct(particles)
        invariant forall j :: 0 <= j < i ==> all[j].State() == start[j]
        invariant StatesOf(particles[i..]) == Sweep(start[i..], steers[i..], width, height)
        invariant Painted(painted, start, steers, i)
      {
        i := i - 1;
        var color := SweepStep(i, steers, all, start);
        PaintedCons(painted, color, start, steers, i);
        painted := [color] + painted;
      }
      assert particles[0..] == particles && start[0..] == start && steers[0..] == steers;
    }

    /** One iteration of the backward loop, at position i. */
    method SweepStep(i: nat, steers: seq<Vec>, ghost all: seq<Particle>, ghost start: seq<ParticleState>)
      returns (color: RgbInt)
      requires i < |all| && i < |particles| && |steers| == |all| == |start|
      requires particles[..i + 1] == all[..i + 1]
      requires forall k :: i + 1 <= k < |particles| ==> particles[k] in all[i + 1..]
      requires Distinct(all) && Distinct(particles)
      requires forall j :: 0 <= j <= i ==> all[j].State() == start[j]
      requires StatesOf(particles[i + 1..]) == Sweep(start[i + 1..], steers[i + 1..], width, height)
      modifies this`particles, all[i]
      ensures i <= |particles| && particles[..i] == all[..i]
      ensures forall k :: i <= k < |particles| ==> particles[k] in all[i..]
      ensures Distinct(particles)
      ensures forall j :: 0 <= j < i ==> all[j].State() == start[j]
      ensures StatesOf(particles[i..]) == Sweep(start[i..], steers[i..], width, height)
      ensures color == DrawnColor(Moved(start[i], steers[i]))
    {
      var particle := particles[i];
      ghost var front := particles[..i];
      assert front == particles[..i + 1][..i] == all[..i + 1][..i] == all[..i];
      ghost var tail := particles[i + 1..];
      ghost var tailStates := StatesOf(tail);
      assert particle == all[i];
      NotInTail(particles, all, i);
      particle.Move(steers[i]);
      color := particle.Draw();
      assert StatesOf(tail) == tailStates;
      ghost var stepped := Stepped(start[i], steers[i]);
      assert particle.State() == stepped;
      ghost var rest := Sweep(start[i + 1..], steers[i + 1..], width, height);
      assert tailStates == rest;
      SweepCons(start[i..], steers[i..], width, height);
      assert start[i..][1..] == start[i + 1..] && steers[i..][1..] == steers[i + 1..];
      if particle.isKilled && (particle.pos.x < 0.0 || particle.pos.x > width as real || particle.pos.y < 0.0 || particle.pos.y > height as real) {
        assert Gone(stepped, width, height);
        assert Sweep(start[i..], steers[i..], width, height) == rest;
        DistinctRemove(particles, i);
        particles := particles[..i] + particles[i + 1..];
        assert particles[..i] == front && particles[i..] == tail;
      } else {
        assert !Gone(stepped, width, height);
        assert Sweep(start[i..], steers[i..], width, height) == [stepped] + rest;
        assert particles[..i] == front && particles[i..] == [particle] + tail;
        StatesOfCons(particle, tail);
      }
    }

    /** particles[i].kill(), seen on the whole list: only particle i changes. */
    method KillAt(i: nat, away: Vec)
      requires Distinct(particles) && i < |particles|
      modifies particles[i]
      ensures States() == old(States())[i := Killed(old(States())[i], away)]
    {
      label Kill:
      particles[i].Kill(away);
      assert forall j :: 0 <= j < |particles| && j != i ==> particles[j].State() == old@Kill(particles[j].State());
    }

    /** The right-button kill of animate: while it is held, every particle within the radius is killed. */
    method PointerKill(ptr: Pointer, away: nat -> Vec)
      requires Valid()
      modifies particles
      ensures Valid()
      ensures States() == PointerKilled(old(States()), ptr, away)
    {
      ghost var start := States();
      if ptr.isPressed && ptr.isRightClick {
        var i := 0;
        while i < |particles|
          invariant 0 <= i <= |particles|
          invariant States() == seq(|start|, j requires 0 <= j < |start| =>
                                      if j < i && Near(start[j], ptr) then Killed(start[j], away(j)) else start[j])
        {
          var particle := particles[i];
          ghost var now := States();
          assert particle.State() == now[i] == start[i];
          var dx := particle.pos.x - ptr.x;
          var dy := particle.pos.y - ptr.y;
          if dx * dx + dy * dy < KillRadius * KillRadius {
            assert Near(start[i], ptr);
            KillAt(i, away(i));
          } else {
            assert !Near(start[i], ptr);
          }
          i := i + 1;
        }
      }
      assert States() == PointerKilled(start, ptr, away);
      PointerKillKeepsColorOk(start, ptr, away);
      PointerKillKeepsLiveOnCanvas(start, ptr, away, width, height);
    }

    /** The end of animate: count the frame and, once the word's duration is over, show the next word. */
    method AdvanceWord(input: WordInput) returns (advanced: bool)
      requires Valid() && InputOk(input, width, height)
      modifies this`frameCount, this`wordIndex, this`activeWord, this`wordScale, this`wordFrame, this`particles, particles
      ensures Valid()
      ensures frameCount == old(frameCount) + 1
      ensures advanced <==> old(wordFrame) >= Duration(CleanKey(old(activeWord)))
      ensures advanced ==>
        wordIndex == NextIndex(old(wordIndex), |words|) && activeWord == words[wordIndex] &&
        wordFrame == 0 && wordScale == 1.0 &&
        States() == NextWordParticles(old(States()), WordTargets(input.pixels, input.choices, width),
                                      WordColor(CleanKey(words[wordIndex]), wordIndex, input.draw), input.spawn, input.away)
      ensures !advanced ==>
        wordIndex == old(wordIndex) && activeWord == old(activeWord) && wordFrame == old(wordFrame) &&
        wordScale == old(wordScale) && particles == old(particles) && States() == old(States())
    {
      var currentWord := CleanKey(activeWord);
      frameCount := frameCount + 1;
      var duration := if currentWord == HeroWord then HeroDuration else BaseDuration;
      advanced := wordFrame >= duration;
      if advanced {
        wordIndex := (wordIndex + 1) % |words|;
        NextWord(words[wordIndex], wordIndex, input);
      }
    }

    /**
     * One frame of animate. `sine` is the sine of the heartbeat phase,
     * `steers[i]` the steering force move computes for particle i, `ptr` the
     * pointer state, `away` the kill destinations of the pointer kill and
     * `input` the next word's input, used when the current word is over.
     */
    method Animate(sine: real, steers: seq<Vec>, ptr: Pointer, away: nat -> Vec, input: WordInput)
      returns (painted: seq<RgbInt>)
      requires Valid() && |steers| == |particles| && InputOk(input, width, height)
      modifies this, particles
      ensures Valid()
      ensures frameCount == old(frameCount) + 1
      ensures floaters == FloatersStepped(old(floaters), width, height)
      ensures |painted| == |old(particles)|
      ensures forall i :: 0 <= i < |painted| ==> painted[i] == DrawnColor(Moved(old(States())[i], steers[i]))
      ensures var key := CleanKey(old(activeWord));
        var swept := PointerKilled(Sweep(old(States()), steers, width, height), ptr, away);
        if old(wordFrame) + 1 >= Duration(key) then
          wordIndex == NextIndex(old(wordIndex), |words|) && activeWord == words[wordIndex] &&
          wordFrame == 0 && wordScale == 1.0 &&
          States() == NextWordParticles(swept, WordTargets(input.pixels, input.choices, width),
                                        WordColor(CleanKey(words[wordIndex]), wordIndex, input.draw), input.spawn, input.away)
        else
          wordIndex == old(wordIndex) && activeWord == old(activeWord) && wordFrame == old(wordFrame) + 1 &&
          wordScale == HeartbeatScale(key, wordFrame, sine) && States() == swept
    {
      painted := Redraw(sine, steers, ptr, away);
      assert forall i :: 0 <= i < |particles| ==> particles[i] in old(particles);
      var advanced := AdvanceWord(input);
    }

    /** Everything animate does before the frame counter: heartbeat, floaters, particles, pointer kill. */
    method Redraw(sine: real, steers: seq<Vec>, ptr: Pointer, away: nat -> Vec) returns (painted: seq<RgbInt>)
      requires Valid() && |steers| == |particles|
      modifies this`wordFrame, this`wordScale, this`floaters, this`particles, particles
      ensures Valid()
      ensures wordFrame == old(wordFrame) + 1 && wordScale == HeartbeatScale(CleanKey(activeWord), wordFrame, sine)
      ensures floaters == FloatersStepped(old(floaters), width, height)
      ensures |painted| == |old(particles)|
      ensures forall i :: 0 <= i < |painted| ==> painted[i] == DrawnColor(Moved(old(States())[i], steers[i]))
      ensures States() == PointerKilled(Sweep(old(States()), steers, width, height), ptr, away)
      ensures forall p :: p in particles ==> p in old(particles)
    {
      ghost var before := States();
      BeginFrame(sine);
      UpdateFloaters();
      assert States() == before;
      painted := UpdateParticles(steers);
      assert forall i :: 0 <= i < |particles| ==> particles[i] in old(particles);
      ghost var swept := PointerKilled(Sweep(before, steers, width, height), ptr, away);
      PointerKill(ptr, away);
      assert States() == swept;
    }
  }
}
