# Particle text effect — a verified model

The component shows a list of words, one after another, as a swarm of
coloured particles on a canvas. For each word, the text is rasterised off
screen. Every 4th pixel of the row-major RGBA buffer is sampled (a stride of
16 bytes), so the sampled columns shift from row to row when the width is
not a multiple of 4. The samples are visited in a shuffled order, and each
opaque sample becomes the target of one particle. Existing
particles are reused first and new ones are spawned off screen. Particles
left without a target are "killed": they are sent off the canvas, blend to
black, and are removed from the swarm once they have left the canvas.

Every frame does the following:
- Each particle steers towards its target and blends its colour a little further.
- The word "SCARLET" pulses in a three-beat heartbeat.
- A set of decorative floaters drifts and bounces off the canvas edges.
- A right-button press kills the particles near the pointer.
- When the current word's duration has run out, the next word is shown. The list wraps around.

The model is split into these modules:

- `Geometry` — vectors, real-valued RGB colours, the linear colour blend, and `Math.round`.
- `Particles` — a particle's state as a value (`ParticleState`) and its
  transitions: spawn, kill, draw (colour blend), move and retarget. Also
  the `Particle` class, whose methods update its fields in place and are
  proved equal to those transitions.
- `Glyph` — sampling the RGBA pixel buffer: the sampled byte offsets, the
  Fisher–Yates shuffle (in place on an array), the pixel-to-coordinate
  mapping, and the opaque-sample targets. Also the font size, the word key
  (`trim().toUpperCase()`) and the word colour table.
- `Assignment` — how one word's targets are mapped onto the particle pool,
  as a fold (`AssignAll`) followed by the kill of the particles left over.
- `Animation` — the per-frame pieces as functions: the heartbeat scale, the
  floaters, the removal sweep, the pointer kill and the word schedule.
- `Swarm` — the component's mutable state as a class, holding:
  - the particles, a sequence of distinct `Particle` objects;
  - the floaters;
  - the frame and word counters;
  - the active word and the scale.

  Its methods `NextWord`, `BeginFrame`, `UpdateFloaters`, `UpdateParticles`,
  `PointerKill`, `AdvanceWord` and `Animate` do what the component's
  `nextWord` and `animate` do. Each is proved against the functions of the
  other modules. The swarm invariant `Valid` says that the word list is not
  empty and the canvas has a positive width and height, that no particle
  appears twice, every colour weight is in [0, 1], every particle that is not
  killed aims at a point on the canvas, and every floater is contained.

Random draws and values computed with square roots or trigonometry become
inputs:
- the spawn draws (`nat -> SpawnDraw`);
- the off-screen kill destinations (`nat -> Vec`);
- the shuffle's choices (`choices[i] <= i`);
- the colour of unknown words;
- the floater seeds;
- the steering force of each particle;
- the value of `Math.sin` for the current beat phase.

With N particles in the pool and M > N opaque samples, the pool does not
grow by M − N. The `particleIndex` counter is not advanced for a newly
pushed particle, so the next sample retargets that same new particle. The
pool therefore grows by ⌈(M − N)/2⌉, and the last new particle is killed
at once when M − N is odd. `Assignment.MoreSamples` states exactly this.

## Model

| member | source | states |
|---|---|---|
| Geometry.RoundHalfUp | components/ui/particle-text-effect.tsx:85-87 | `Math.round` gives an integer within half a unit of its argument, rounding halves up |
| Geometry.BlendEnds | components/ui/particle-text-effect.tsx:85-87 | weight 0 shows the start colour and weight 1 the target colour |
| Geometry.BlendBetween | components/ui/particle-text-effect.tsx:85-87 | a blend with weight in [0, 1] lies channel by channel between the start and the target colour |
| Geometry.BlendInByteRange | components/ui/particle-text-effect.tsx:112-116 | blending two colours of the byte range stays in the byte range |
| Particles.Spawned | components/ui/particle-text-effect.tsx:280-289 | a new particle sits at the spawn point, is alive and black, and has max speed in [4, 10), max force 0.05 × speed, size in [6, 12) and blend rate in [0.0025, 0.03) |
| Particles.Killed | components/ui/particle-text-effect.tsx:104-122 | a killed particle is marked killed and keeps its weight in [0, 1]; a particle that is already killed is returned unchanged |
| Particles.Shown | components/ui/particle-text-effect.tsx:84-88 | the colour a particle shows is the blend of its start and target colours at its weight; `Geometry.BlendEnds` and `Geometry.BlendBetween` state its values |
| Particles.Drawn | components/ui/particle-text-effect.tsx:79-81 | the colour step of `draw`; `DrawStep`, `DrawMonotone` and `DrawnTimesWeight` state that the weight rises by the blend rate, capped at 1 |
| Particles.DrawnColor | components/ui/particle-text-effect.tsx:79-88 | the colour `draw` paints, rounded, from the already advanced weight; `FullWeightPaintsTarget` and `DrawsConverge` state that it ends at the rounded target colour |
| Particles.KillIdempotent | components/ui/particle-text-effect.tsx:59-122 | killing twice is killing once; a killed particle that has since been moved and drawn is still killed, and a later kill leaves it unchanged |
| Particles.KillFirst | components/ui/particle-text-effect.tsx:104-122 | the first kill sends the particle to the off-screen point, targets black at weight 0, and snapshots the blended colour as the new start, so the colour shown does not jump; position and motion are untouched |
| Particles.Moved | components/ui/particle-text-effect.tsx:59-68 | after a move the acceleration is reset to zero |
| Particles.Retargeted | components/ui/particle-text-effect.tsx:295-304 | retargeting sets the target, the target colour and a zero weight |
| Particles.RetargetContinuous | components/ui/particle-text-effect.tsx:295-301 | retargeting keeps the colour on screen unchanged and keeps the weight in [0, 1] |
| Particles.DrawMonotone | components/ui/particle-text-effect.tsx:79-81 | drawing never lowers the colour weight and never takes it above 1 |
| Particles.DrawStep | components/ui/particle-text-effect.tsx:79-81 | one draw from weight min(w, 1) gives weight min(w + rate, 1) and keeps both colours and the rate |
| Particles.DrawnTimesWeight | components/ui/particle-text-effect.tsx:79-81 | after n draws the weight is min(w + n × rate, 1) and the two colours are unchanged |
| Particles.DrawnTimesGain | components/ui/particle-text-effect.tsx:79-81 | n draws add the accumulated gain n × rate to the weight, capped at 1, and keep both colours |
| Particles.FullWeightPaintsTarget | components/ui/particle-text-effect.tsx:84-88 | at weight 1 the painted colour is the rounded target colour |
| Particles.DrawsConverge | components/ui/particle-text-effect.tsx:79-88 | after enough draws a particle paints exactly its rounded target colour |
| Particles.Particle.constructor | components/ui/particle-text-effect.tsx:10-25 | a new particle has the field defaults of the class |
| Particles.Particle.Kill | components/ui/particle-text-effect.tsx:104-122 | the fields after `kill` are `Killed` of the fields before |
| Particles.Particle.Draw | components/ui/particle-text-effect.tsx:78-88 | the weight steps as in `Drawn`, and the returned colour is the rounded blend at the new weight |
| Particles.Particle.Move | components/ui/particle-text-effect.tsx:59-68 | the fields after `move` are `Moved` of the fields before, for the given steering force |
| Particles.Particle.Retarget | components/ui/particle-text-effect.tsx:295-304 | the fields after retargeting are `Retargeted` of the fields before |
| Glyph.CollectOffsets | components/ui/particle-text-effect.tsx:254-257 | the loop collects every 16th byte offset below the buffer length: ⌈len/16⌉ offsets, each a multiple of 16 |
| Glyph.SampleOffsets | components/ui/particle-text-effect.tsx:254-257 | the byte offsets 0, 16, 32, … below the buffer length; `CollectOffsets` is proved to build exactly this list |
| Glyph.ShuffledOffsetsFit | components/ui/particle-text-effect.tsx:254-267 | every shuffled offset is a multiple of 16 and its alpha byte lies inside the buffer |
| Glyph.Swap | components/ui/particle-text-effect.tsx:262 | swapping two positions keeps the length |
| Glyph.SwapPermutes | components/ui/particle-text-effect.tsx:262 | a swap is a permutation |
| Glyph.ShuffleDown | components/ui/particle-text-effect.tsx:260-263 | the downward Fisher–Yates pass keeps the length |
| Glyph.ShuffleDownPermutes | components/ui/particle-text-effect.tsx:260-263 | the shuffle is a permutation of the collected offsets |
| Glyph.Shuffled | components/ui/particle-text-effect.tsx:259-263 | the Fisher–Yates pass from the last position down to 1, swapping position i with the drawn j ≤ i; `ShuffleDownPermutes` proves it a permutation |
| Glyph.Shuffle | components/ui/particle-text-effect.tsx:260-263 | the in-place array shuffle yields `Shuffled` of the old contents, a permutation of them |
| Glyph.PixelOf | components/ui/particle-text-effect.tsx:270-271 | the computed (x, y) has x < width and addresses the pixel that contains the byte offset |
| Glyph.PixelOnCanvas | components/ui/particle-text-effect.tsx:270-271 | for an offset inside a width × height RGBA buffer, y < height |
| Glyph.Opaque | components/ui/particle-text-effect.tsx:267-269 | a sampled offset is taken iff its alpha byte is non-zero; `TargetsMembers` states which pixels this selects |
| Glyph.Targets | components/ui/particle-text-effect.tsx:265-271 | there are at most as many targets as samples |
| Glyph.TargetsMembers | components/ui/particle-text-effect.tsx:265-271 | a pixel is a target iff it is the pixel of some visited offset whose alpha byte is non-zero |
| Glyph.TargetsOnCanvas | components/ui/particle-text-effect.tsx:265-271 | every target lies on the canvas; a pixel is a target iff it is the pixel of a visited offset with non-zero alpha; there is exactly one target per such offset |
| Glyph.WordTargets | components/ui/particle-text-effect.tsx:254-271 | a word yields at most one target per sampled offset |
| Glyph.WordOrder | components/ui/particle-text-effect.tsx:253-265 | every shuffled offset of a width × height buffer has its alpha byte inside the buffer, and visiting them in that order yields the word's targets |
| Glyph.WordTargetsOnCanvas | components/ui/particle-text-effect.tsx:254-271 | a word's targets lie on the canvas; a pixel is a target iff it is the pixel of a shuffled offset with non-zero alpha; there is one target per such offset |
| Glyph.FontSize | components/ui/particle-text-effect.tsx:221 | the font size is 15% of the width (floored) clamped to [90, 200]: 90 below the range, 200 above it, the 15% value inside it |
| Glyph.FontSizeMonotone | components/ui/particle-text-effect.tsx:221 | a wider canvas never gets a smaller font |
| Glyph.IsSpace | components/ui/particle-text-effect.tsx:208 | the characters `trim` removes: white space and line terminators; `TrimStartSpec` and `TrimEndSpec` use it |
| Glyph.TrimStart | components/ui/particle-text-effect.tsx:208 | the leading-space half of `trim`; `TrimStartSpec` states what it removes |
| Glyph.TrimEnd | components/ui/particle-text-effect.tsx:208 | the trailing-space half of `trim`; `TrimEndSpec` states what it removes |
| Glyph.TrimStartSpec | components/ui/particle-text-effect.tsx:208 | trimming at the start removes exactly the leading run of white space |
| Glyph.TrimEndSpec | components/ui/particle-text-effect.tsx:208 | trimming at the end removes exactly the trailing run of white space |
| Glyph.ToUpper | components/ui/particle-text-effect.tsx:208 | `toUpperCase` on ASCII letters; `ToUpperSpec` states its effect character by character |
| Glyph.ToUpperSpec | components/ui/particle-text-effect.tsx:208 | upper-casing keeps the length, turns each ASCII lower-case letter into its capital (32 code points lower) and keeps every other character |
| Glyph.CleanKey | components/ui/particle-text-effect.tsx:208 | the word key `word.trim().toUpperCase()`; `CleanKeyCanonical` states that it is trimmed and stable |
| Glyph.CleanKeyCanonical | components/ui/particle-text-effect.tsx:208 | the word key neither starts nor ends with white space, and cleaning it again changes nothing |
| Glyph.WordColor | components/ui/particle-text-effect.tsx:235-248 | every word colour, fixed or random, has channels in [0, 255] |
| Glyph.KnownWordsFixed | components/ui/particle-text-effect.tsx:236-243 | the five known words get a colour independent of the random draws |
| Assignment.AssignStep | components/ui/particle-text-effect.tsx:273-305 | one sample keeps the reuse index within the pool |
| Assignment.AssignAll | components/ui/particle-text-effect.tsx:265-306 | assigning all samples keeps the index within the pool and never shrinks the pool |
| Assignment.KillFrom | components/ui/particle-text-effect.tsx:309-311 | killing the leftovers keeps the pool size |
| Assignment.Reused | components/ui/particle-text-effect.tsx:275-278 | an existing particle taken for a sample is revived and then retargeted; `ReusePhase` and `FewerSamples` place it |
| Assignment.Fresh | components/ui/particle-text-effect.tsx:279-304 | a particle pushed for a sample is spawned from its draw and then retargeted; `GrowPhase` places it |
| Assignment.GrownAt | components/ui/particle-text-effect.tsx:279-304 | the new particle at a given position: pushed for one sample and, when a next sample exists, retargeted by it; `GrowPhase` proves the pool holds exactly these |
| Assignment.NextWordParticles | components/ui/particle-text-effect.tsx:250-311 | the fold over the samples followed by the closing kill; `FewerSamples`, `MoreSamples`, `NeverShrinks`, `NextWordKeepsColorOk` and `NextWordLiveOnCanvas` state its outcome |
| Assignment.ReusePhase | components/ui/particle-text-effect.tsx:275-278 | while pool particles remain, sample k retargets particle index + k, and nothing else changes |
| Assignment.AssignAllAppend | components/ui/particle-text-effect.tsx:265-306 | assigning a + b is assigning a, then b |
| Assignment.GrowPhase | components/ui/particle-text-effect.tsx:279-292 | once the pool is used up, m samples add ⌈m/2⌉ particles; each pushed particle is retargeted by the following sample |
| Assignment.GrowStep | components/ui/particle-text-effect.tsx:279-304 | one more sample in the growing phase: a push when the last new particle is already retargeted, otherwise a retarget of it |
| Assignment.FewerSamples | components/ui/particle-text-effect.tsx:265-311 | with M ≤ N samples, the first M particles are reused, alive and aimed at on-canvas targets in the word colour, and the other N − M are killed |
| Assignment.MoreSamplesPool | components/ui/particle-text-effect.tsx:265-306 | with M > N samples, the N old particles are reused and the pool ends with N + ⌈(M − N)/2⌉ particles |
| Assignment.MoreSamplesShape | components/ui/particle-text-effect.tsx:265-311 | with M > N samples, position by position: old particles reused, new ones as `GrownAt`, the last one killed when the sample count left over is odd |
| Assignment.MoreSamples | components/ui/particle-text-effect.tsx:265-311 | with M > N samples, the N particles are reused in order, the pool grows by ⌈(M − N)/2⌉ with each new particle given by `GrownAt`, every particle but the last is alive, the last is killed iff M − N is odd, and every live particle aims at a point on the canvas |
| Assignment.NeverShrinks | components/ui/particle-text-effect.tsx:265-311 | a word change never removes particles |
| Assignment.AssignAllKeepsColorOk | components/ui/particle-text-effect.tsx:273-305 | assignment keeps every colour weight in [0, 1] |
| Assignment.NextWordKeepsColorOk | components/ui/particle-text-effect.tsx:250-311 | a word change keeps every colour weight in [0, 1] |
| Assignment.AssignAllAims | components/ui/particle-text-effect.tsx:265-305 | every particle the samples reach, reused or pushed, aims at the pixel of one of the samples; which sample reaches which particle is stated by `FewerSamples` and `MoreSamplesShape` |
| Assignment.NextWordLiveOnCanvas | components/ui/particle-text-effect.tsx:250-311 | after a word change, every particle that is not killed aims at a point on the canvas |
| Animation.EnvelopeSteps | components/ui/particle-text-effect.tsx:335 | the envelope is 1, 2/3 and 1/3 on the three beats and 0.1 at the end |
| Animation.EnvelopeDecays | components/ui/particle-text-effect.tsx:335 | the envelope never grows and stays in [0.1, 1] |
| Animation.HeartbeatBounded | components/ui/particle-text-effect.tsx:325-342 | the scale stays in [0.88, 1.12]; it is exactly 1 for other words, while the word settles, and after the three beats |
| Animation.Envelope | components/ui/particle-text-effect.tsx:335 | the beat envelope 1 − min(⌊t/60⌋/3, 0.9); `EnvelopeSteps` and `EnvelopeDecays` state its values |
| Animation.HeartbeatScale | components/ui/particle-text-effect.tsx:325-342 | the word scale of a frame; `HeartbeatBounded` bounds it and `Swarm.Swarm.BeginFrame` is proved to compute it |
| Animation.SeedFloater | components/ui/particle-text-effect.tsx:472-478 | a seeded floater lies on the canvas, [0, width] × [0, height], is contained, and each velocity component is in [-0.3, 0.3) |
| Animation.Scaled | components/ui/particle-text-effect.tsx:474 | a random fraction of the canvas extent lies in [0, extent] |
| Animation.Velocity | components/ui/particle-text-effect.tsx:475 | a random velocity component lies in [-0.3, 0.3) |
| Animation.Reflect | components/ui/particle-text-effect.tsx:355-360 | a velocity component is reversed iff the new coordinate left [0, bound]; `FloaterStepKeepsOk` and `LeftEdgeBounces` state the effect |
| Animation.FloaterStep | components/ui/particle-text-effect.tsx:351-360 | a floater moves by its velocity, then bounces; `FloaterStepKeepsOk` states that it stays contained |
| Animation.FloaterStepKeepsOk | components/ui/particle-text-effect.tsx:351-360 | a floater step keeps the floater contained (on the canvas, or at most one step outside and heading back) and only flips velocity signs |
| Animation.FloatersStepped | components/ui/particle-text-effect.tsx:351-360 | one frame keeps the number of floaters and keeps them contained |
| Animation.Seeded | components/ui/particle-text-effect.tsx:469-481 | the start-up floaters are one per draw and all contained |
| Animation.ContainedNear | components/ui/particle-text-effect.tsx:355-360 | a contained floater is never farther than one step outside the canvas |
| Animation.LeftEdgeBounces | components/ui/particle-text-effect.tsx:355-357 | a floater at the left edge moving left turns around |
| Animation.Gone | components/ui/particle-text-effect.tsx:375-383 | a particle is removed iff it is killed and outside [0, width] × [0, height] |
| Animation.Stepped | components/ui/particle-text-effect.tsx:370-372 | each particle is moved by its steering force, then drawn |
| Animation.Survivors | components/ui/particle-text-effect.tsx:374-384 | the particles that are not gone, in order; `SurvivorsSound`, `SurvivorsComplete` and `SurvivorsCount` state exactly which |
| Animation.Sweep | components/ui/particle-text-effect.tsx:369-385 | the whole particle loop of a frame; `SweepCons` relates it to the back-to-front loop and `SweepKeepsColorOk`, `SweepKeepsLiveOnCanvas` state what it keeps |
| Animation.SweepCons | components/ui/particle-text-effect.tsx:369-385 | the sweep handles the first particle and then sweeps the rest |
| Animation.SurvivorsAppend | components/ui/particle-text-effect.tsx:369-385 | removal distributes over concatenation, so removing from the back gives the same result |
| Animation.SurvivorsSound | components/ui/particle-text-effect.tsx:375-383 | every particle kept by the sweep was in the list and is not both killed and off the canvas |
| Animation.SurvivorsComplete | components/ui/particle-text-effect.tsx:375-383 | every particle that is not both killed and off the canvas is kept |
| Animation.SurvivorsCount | components/ui/particle-text-effect.tsx:375-383 | the sweep removes exactly the killed, off-canvas particles |
| Animation.SweepKeepsColorOk | components/ui/particle-text-effect.tsx:369-385 | a frame's sweep keeps every colour weight in [0, 1] |
| Animation.SweepKeepsLiveOnCanvas | components/ui/particle-text-effect.tsx:369-385 | a frame's sweep keeps every live particle aimed at a point on the canvas |
| Animation.Near | components/ui/particle-text-effect.tsx:390-393 | a particle is near the pointer iff its squared distance is below 50², which is a distance below 50; `PointerKillExact` uses it |
| Animation.PointerKilled | components/ui/particle-text-effect.tsx:388-397 | the pointer kill keeps the number of particles |
| Animation.PointerKillExact | components/ui/particle-text-effect.tsx:388-397 | with the right button held, exactly the particles within distance 50 are killed, and no particle moves |
| Animation.PointerKillIdempotent | components/ui/particle-text-effect.tsx:388-397 | a particle already killed, in this frame or an earlier one, is left unchanged by the pointer kill; a second pointer kill right after the first changes nothing |
| Animation.PointerKillKeepsColorOk | components/ui/particle-text-effect.tsx:388-397 | the pointer kill keeps every colour weight in [0, 1] |
| Animation.PointerKillKeepsLiveOnCanvas | components/ui/particle-text-effect.tsx:388-397 | the pointer kill keeps every live particle aimed at a point on the canvas |
| Animation.Duration | components/ui/particle-text-effect.tsx:401-403 | 320 frames for SCARLET and 200 for every other word; `Swarm.Swarm.AdvanceWord` states when a word ends |
| Animation.NextIndex | components/ui/particle-text-effect.tsx:405 | the next word index is a valid index |
| Animation.AdvanceTimes | components/ui/particle-text-effect.tsx:405 | k successive advances of the word index; `AdvanceTimesCycles` and `FullCycle` state where they land |
| Animation.AdvanceTimesCycles | components/ui/particle-text-effect.tsx:405 | k advances from index i land on (i + k) mod the number of words |
| Animation.FullCycle | components/ui/particle-text-effect.tsx:405 | after as many advances as there are words, the first word is back |
| Swarm.Swarm.constructor | components/ui/particle-text-effect.tsx:469-484 | start-up seeds the floaters, shows the first word from an empty pool, and establishes the swarm invariant (distinct particles, weights in [0, 1], live particles aimed on the canvas, floaters contained) |
| Swarm.Swarm.NextWord | components/ui/particle-text-effect.tsx:206-311 | the particle states after `nextWord` are `NextWordParticles` of those before, with the word's targets and colour; old particle objects keep their places, new ones are fresh and appended; the swarm invariant is kept |
| Swarm.Swarm.PlaceWord | components/ui/particle-text-effect.tsx:250-311 | the particle part of `nextWord`: the states become `NextWordParticles` of those before, old objects keep their places, new ones are fresh and the list stays duplicate-free |
| Swarm.Swarm.SampleOrder | components/ui/particle-text-effect.tsx:253-263 | the visiting order is `Shuffled` of the sampled byte offsets, a permutation of them |
| Swarm.Swarm.AssignSamples | components/ui/particle-text-effect.tsx:265-306 | the assignment loop leaves the pool and reuse index equal to `AssignAll` over the word's targets |
| Swarm.Swarm.Visit | components/ui/particle-text-effect.tsx:265-305 | one iteration of the sample loop advances the pool by one `AssignAll` step when the alpha byte is non-zero, and leaves it otherwise |
| Swarm.Swarm.TakeSample | components/ui/particle-text-effect.tsx:273-305 | one opaque sample changes the pool exactly as `AssignStep`: revive and count the next particle, or push an uncounted new one, then retarget it |
| Swarm.Swarm.Push | components/ui/particle-text-effect.tsx:279-291 | the pushed particle is a new object appended at the end, with the state `Spawned` of its draw |
| Swarm.Swarm.KillRemaining | components/ui/particle-text-effect.tsx:308-311 | the kill loop leaves the states equal to `KillFrom` at the reuse index |
| Swarm.Swarm.KillAt | components/ui/particle-text-effect.tsx:310 | killing particle i of the list changes its state to `Killed` and no other particle's state |
| Swarm.Swarm.BeginFrame | components/ui/particle-text-effect.tsx:325-342 | the word frame is incremented and the scale is the heartbeat scale for it |
| Swarm.Swarm.UpdateFloaters | components/ui/particle-text-effect.tsx:351-360 | the floaters after the loop are `FloatersStepped` of those before |
| Swarm.Swarm.UpdateParticles | components/ui/particle-text-effect.tsx:368-385 | the back-to-front loop leaves exactly `Sweep` of the old states, paints each particle's moved colour, only removes particles, and keeps the swarm invariant |
| Swarm.Swarm.SweepAll | components/ui/particle-text-effect.tsx:369-385 | the back-to-front loop leaves `Sweep` of the old states, records each particle's painted colour, and keeps the list duplicate-free |
| Swarm.Swarm.SweepStep | components/ui/particle-text-effect.tsx:370-384 | one iteration moves and draws particle i and splices it out iff it is gone, extending the swept suffix by one particle |
| Swarm.Swarm.PointerKill | components/ui/particle-text-effect.tsx:387-397 | the states after the pointer loop are `PointerKilled` of those before, and the swarm invariant is kept |
| Swarm.Swarm.AdvanceWord | components/ui/particle-text-effect.tsx:399-407 | the frame counter is incremented; the word advances iff its duration (320 frames for SCARLET, 200 otherwise) has run out, and then the next word is shown; otherwise nothing else changes |
| Swarm.Swarm.Redraw | components/ui/particle-text-effect.tsx:325-397 | the part of a frame before the word advance: heartbeat scale, stepped floaters, swept particles with their painted colours, pointer kill; the swarm invariant is kept |
| Swarm.Swarm.Animate | components/ui/particle-text-effect.tsx:314-410 | one frame as a whole: floaters stepped, particles moved, drawn and swept, pointer kill, then either the next word over the swept particles or the heartbeat scale; the swarm invariant is kept |

## Left out

- The steering force in `move` (lines 29-57) depends on `Math.sqrt`. `Particles.Moved` takes that force as an input, so `closeEnoughTarget` and `maxSpeed` are unused.
- `generateRandomPos` (lines 124-143 and 185-204) uses `Math.random` and `Math.sqrt`. The off-screen points it returns are inputs.
- Every `Math.random()` value is an input of type `Unit`, which is [0, 1).
- `Math.sin` is an input. It is assumed to lie in [-1, 1] where the heartbeat bound is stated.
- Rasterising the word with the canvas `fillText` (lines 215-231) is left out. The RGBA buffer is an input of the right size.
- All canvas drawing is left out: clearing, the motion-blur fill, arcs and rectangles. So are the point and scale placement of particles, which is only a draw position. `Particle.Draw` returns the colour it would paint.
- Audio, resizing and the device pixel ratio, the portrait rotation, the mouse handlers, `requestAnimationFrame` and the JSX are left out. The pointer state is an input of each frame. The canvas size is fixed for the life of a `Swarm`.
- A canvas of width or height 0 is not modelled. There `getImageData` (line 230) throws, so `nextWord` never reaches the sampling loop; `Swarm.Valid` and the `Swarm.Swarm` constructor require `width > 0` and `height > 0` instead of modelling that exception.
- An empty word list is not modelled. The source then throws at `words[0].trim()` (lines 484 and 208); `Swarm.Valid` and the constructor require at least one word.
- Numbers are exact reals, not IEEE doubles.
- `Glyph.ToUpper`: upper-cases ASCII letters only, because the model has no Unicode case tables. `IsSpace` covers the code points JavaScript's `trim` removes.
- Floater colour is a constant string and is not modelled.
- The frame counter `frameCountRef` is only incremented; nothing reads it.
