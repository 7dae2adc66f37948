/**
 Animation frames. Entities and tiles compute the frame shown at a tick by closed
 formulas; both are proved to be what a playhead reaches that moves one frame per step.
 */
module Animation {
  import opened Common
  import opened ContentModel

  // -------------------------------------------------------- the playhead

  /** The frame shown and, for ping-pong, whether the next step goes forward. */
  datatype Playhead = Playhead(frame: nat, forward: bool)

  function Start(): Playhead { Playhead(0, true) }

  /** One step over `count` frames. */
  function Next(mode: AnimationMode, count: nat, p: Playhead): Playhead {
    match mode
    case Loop => if p.frame + 1 >= count then Playhead(0, true) else Playhead(p.frame + 1, true)
    case Once => if p.frame + 1 >= count then p else Playhead(p.frame + 1, true)
    case PingPong =>
      if count <= 1 then p
      else if p.forward then Playhead(p.frame + 1, p.frame + 2 < count)
      else if p.frame == 0 then Start()
      else Playhead(p.frame - 1, p.frame == 1)
  }

  function Played(mode: AnimationMode, count: nat, steps: nat): Playhead {
    if steps == 0 then Start() else Next(mode, count, Played(mode, count, steps - 1))
  }

  // ------------------------------------------------------ closed formulas

  /** What a type shows: the frames of one animation in its sheet. */
  datatype Visual = Visual(sheet: string, sprite: nat, frames: nat, frameTicks: nat, mode: AnimationMode)

  datatype NamedAnimation = NamedAnimation(name: string, sprite: nat, frames: nat, frameTicks: nat, mode: AnimationMode)

  datatype NamedType = NamedType(visual: Visual, animations: seq<NamedAnimation>)

  function Remainder(n: nat, p: nat): (r: nat)
    requires p > 0
    ensures r < p
  {
    n % p
  }

  function Steps(tick: nat, ticks: nat): nat
    requires ticks > 0
  {
    tick / ticks
  }

  function Wrapped(n: nat): nat { n % TWO32 }

  /** The frame of an entity, as a number of the sheet in 32 bits. */
  function EntityFrame(v: Visual, tick: nat): nat {
    if v.frames == 0 || v.frameTicks == 0 then 0
    else
      var index := Steps(tick, v.frameTicks);
      var frame :=
        if v.mode == Once then if index >= v.frames then v.frames - 1 else index
        else if v.mode == PingPong && v.frames > 1 then
          var period := v.frames * 2 - 2;
          var r := Remainder(index, period);
          if r >= v.frames then period - r else r
        else Remainder(index, v.frames);
      Wrapped(v.sprite + Wrapped(frame))
  }

  /** How many steps a tile's animation is in; a random phase adds the cell's seed in 64 bits. */
  function TileSteps(def: Body, seed: nat, tick: nat): nat
    requires def.frameTicks > 0
  {
    var elapsed := Steps(tick, def.frameTicks);
    if def.randomPhase then (elapsed + seed) % TWO64 else elapsed
  }

  function TileFrame(def: Body, seed: nat, tick: nat): nat {
    if def.frameCount <= 1 || def.frameTicks == 0 then 0
    else
      var step := TileSteps(def, seed, tick);
      if def.animation == Once then if step >= def.frameCount then def.frameCount - 1 else step
      else if def.animation == PingPong then
        var period := def.frameCount * 2 - 2;
        var r := Remainder(step, period);
        if r >= def.frameCount then period - r else r
      else Remainder(step, def.frameCount)
  }

  // ----------------------------------------------------------- the theorem

  /** Where the playhead is after any number of steps. */
  function Reached(mode: AnimationMode, count: nat, steps: nat): Playhead
    requires count > 0
  {
    match mode
    case Loop => Playhead(Remainder(steps, count), true)
    case Once => if steps >= count then Playhead(count - 1, true) else Playhead(steps, true)
    case PingPong =>
      if count == 1 then Start()
      else
        var r := Remainder(steps, 2 * count - 2);
        if r < count - 1 then Playhead(r, true) else Playhead(2 * count - 2 - r, false)
  }

  lemma RemainderSteps(n: nat, p: nat)
    requires p > 0
    ensures Remainder(n + 1, p) == if Remainder(n, p) + 1 == p then 0 else Remainder(n, p) + 1
    ensures Remainder(0, p) == 0
  {
    var q, r := n / p, n % p;
    assert n == q * p + r;
    if r + 1 == p {
      assert n + 1 == (q + 1) * p;
      RemainderIsUnique(n + 1, q + 1, 0, p);
    } else {
      RemainderIsUnique(n + 1, q, r + 1, p);
    }
  }

  lemma RemainderIsUnique(n: int, q: int, r: nat, p: nat)
    requires n == q * p + r && r < p
    ensures n % p == r
  {
    SameRemainder(n / p, n % p, q, r, p);
  }

  lemma SameRemainder(k: int, s: nat, q: int, r: nat, p: nat)
    requires k * p + s == q * p + r && s < p && r < p
    ensures s == r
  {
    if k < q { NextMultiple(k, q, p); }
    if q < k { NextMultiple(q, k, p); }
  }

  lemma NextMultiple(a: int, b: int, p: nat)
    requires a < b
    ensures a * p + p <= b * p
  {
    assert b * p == a * p + (b - a) * p;
    assert (b - a) * p == p + (b - a - 1) * p;
  }

  /** Stepping reaches exactly the closed forms, for every count and number of steps. */
  lemma {:induction false} PlayheadIsClosedForm(mode: AnimationMode, count: nat, steps: nat)
    requires count > 0
    ensures Played(mode, count, steps) == Reached(mode, count, steps)
    ensures Played(mode, count, steps).frame < count
  {
    hide Remainder;
    if steps > 0 {
      PlayheadIsClosedForm(mode, count, steps - 1);
      RemainderSteps(steps - 1, count);
      if mode == PingPong && count > 1 { RemainderSteps(steps - 1, 2 * count - 2); }
    } else {
      RemainderSteps(0, count);
      if mode == PingPong && count > 1 { RemainderSteps(0, 2 * count - 2); }
    }
  }

  lemma WrappedOnce(a: nat, b: nat)
    requires b < TWO32
    ensures Wrapped(b) == b && (a + b < TWO32 ==> Wrapped(a + b) == a + b)
  {
  }

  /** An entity shows its first sprite plus the playhead's frame, the playhead having moved once every frameTicks. */
  lemma EntityFrameFollowsPlayhead(v: Visual, tick: nat)
    requires 0 < v.frames < TWO32 && v.frameTicks > 0
    ensures EntityFrame(v, tick) == Wrapped(v.sprite + Played(v.mode, v.frames, Steps(tick, v.frameTicks)).frame)
    ensures v.sprite + v.frames - 1 < TWO32 ==>
      EntityFrame(v, tick) == v.sprite + Played(v.mode, v.frames, Steps(tick, v.frameTicks)).frame < v.sprite + v.frames
  {
    PlayheadIsClosedForm(v.mode, v.frames, Steps(tick, v.frameTicks));
    WrappedOnce(v.sprite, Played(v.mode, v.frames, Steps(tick, v.frameTicks)).frame);
    hide Remainder, Played, Steps, Wrapped;
  }

  /** A tile shows the playhead's frame, started as many steps ahead as its seed says. */
  lemma TileFrameFollowsPlayhead(def: Body, seed: nat, tick: nat)
    requires def.frameCount > 0 && def.frameTicks > 0
    ensures TileFrame(def, seed, tick) == Played(def.animation, def.frameCount, TileSteps(def, seed, tick)).frame
    ensures TileFrame(def, seed, tick) < def.frameCount
  {
    PlayheadIsClosedForm(def.animation, def.frameCount, TileSteps(def, seed, tick));
    hide Remainder, Played, TileSteps;
    if def.frameCount == 1 && def.animation == Loop { RemainderOfOne(TileSteps(def, seed, tick)); }
  }

  lemma RemainderOfOne(n: nat)
    ensures Remainder(n, 1) == 0
  {
  }

  /** Without a phase seed the two formulas show the same frame. */
  lemma EntityAndTileAgree(v: Visual, def: Body, seed: nat, tick: nat)
    requires 0 < v.frames < TWO32 && 0 < v.frameTicks && v.sprite + v.frames - 1 < TWO32
    requires (def.frameCount, def.frameTicks, def.animation) == (v.frames, v.frameTicks, v.mode)
    requires !def.randomPhase
    ensures EntityFrame(v, tick) == v.sprite + TileFrame(def, seed, tick)
  {
    hide Remainder, Played, Steps, Wrapped, EntityFrame, TileFrame;
    EntityFrameFollowsPlayhead(v, tick);
    TileFrameFollowsPlayhead(def, seed, tick);
  }

  // ------------------------------------------------------- animation status

  datatype Status = Status(frame: nat, frames: nat, mode: AnimationMode, finished: bool)

  /** The animation a value plays: its type's visual, or a named animation in the same sheet. */
  function Selected(types: seq<NamedType>, typeId: nat, animationId: nat): Option<Visual> {
    if typeId == 0 || typeId > |types| || types[typeId - 1].visual.sheet == "" then None
    else if animationId == 0 then Some(types[typeId - 1].visual)
    else if animationId > |types[typeId - 1].animations| then None
    else
      var a := types[typeId - 1].animations[animationId - 1];
      Some(Visual(types[typeId - 1].visual.sheet, a.sprite, a.frames, a.frameTicks, a.mode))
  }

  /** Only visuals with frames and ticks reach the division. */
  function AnimationStatus(types: seq<NamedType>, typeId: nat, animationId: nat, tick: nat): Option<Status>
    requires forall v :: Selected(types, typeId, animationId) == Some(v) ==> v.frameTicks > 0
  {
    match Selected(types, typeId, animationId)
    case None => None
    case Some(v) =>
      Some(Status((EntityFrame(v, tick) - v.sprite) % TWO32, v.frames, v.mode,
                  v.mode == Once && Steps(tick, v.frameTicks) >= v.frames))
  }

  /** The reported frame is the playhead's own, and an animation is finished exactly when it plays once and its
      playhead has come to rest. */
  lemma StatusFollowsPlayhead(types: seq<NamedType>, typeId: nat, animationId: nat, v: Visual, tick: nat)
    requires Selected(types, typeId, animationId) == Some(v)
    requires 0 < v.frames < TWO32 && v.frameTicks > 0 && v.sprite + v.frames - 1 < TWO32
    ensures var (status, steps) := (AnimationStatus(types, typeId, animationId, tick).value, Steps(tick, v.frameTicks));
            && status.frame == Played(v.mode, v.frames, steps).frame
            && (status.finished <==> v.mode == Once && steps > 0
                                     && Played(v.mode, v.frames, steps) == Played(v.mode, v.frames, steps - 1))
  {
    hide Remainder, Steps, Wrapped, EntityFrame, Selected;
    var steps := Steps(tick, v.frameTicks);
    EntityFrameFollowsPlayhead(v, tick);
    PlayheadIsClosedForm(v.mode, v.frames, steps);
    if steps > 0 { PlayheadIsClosedForm(v.mode, v.frames, steps - 1); }
    hide Played;
  }

  // ------------------------------------------------------- tick by tick

  /** A playhead that moves on at every `ticks`-th tick. */
  function TickedFrom(mode: AnimationMode, count: nat, ticks: nat, start: Playhead, tick: nat): Playhead
    requires ticks > 0
  {
    if tick == 0 then start
    else
      var before := TickedFrom(mode, count, ticks, start, tick - 1);
      if tick % ticks == 0 then Next(mode, count, before) else before
  }

  lemma QuotientMoves(tick: nat, ticks: nat)
    requires ticks > 0
    ensures (tick + 1) / ticks == tick / ticks + if (tick + 1) % ticks == 0 then 1 else 0
  {
    var q, r := tick / ticks, tick % ticks;
    assert tick == q * ticks + r;
    if r + 1 == ticks {
      assert tick + 1 == (q + 1) * ticks + 0;
      RemainderIsUnique(tick + 1, q + 1, 0, ticks);
      assert tick + 1 == ((tick + 1) / ticks) * ticks;
      SameRemainder((tick + 1) / ticks, 0, q + 1, 0, ticks);
      EqualProducts((tick + 1) / ticks, q + 1, ticks);
    } else {
      RemainderIsUnique(tick + 1, q, r + 1, ticks);
      assert tick + 1 == ((tick + 1) / ticks) * ticks + (r + 1);
      EqualProducts((tick + 1) / ticks, q, ticks);
    }
  }

  lemma EqualProducts(a: int, b: int, c: nat)
    requires a * c == b * c && c > 0
    ensures a == b
  {
    if a < b { NextMultiple(a, b, c); }
    if b < a { NextMultiple(b, a, c); }
  }

  lemma {:induction false} TickingIsPlaying(mode: AnimationMode, count: nat, ticks: nat, ahead: nat, tick: nat)
    requires ticks > 0
    ensures TickedFrom(mode, count, ticks, Played(mode, count, ahead), tick)
         == Played(mode, count, ahead + Steps(tick, ticks))
  {
    if tick > 0 {
      TickingIsPlaying(mode, count, ticks, ahead, tick - 1);
      QuotientMoves(tick - 1, ticks);
    }
  }

  /** What is shown at every tick: entities and tiles play their frames from the first one on, one every frameTicks
      ticks; a tile with a random phase begins as many frames ahead as its cell's seed says. */
  lemma FramesTick(v: Visual, def: Body, seed: nat, tick: nat)
    requires 0 < v.frames < TWO32 && v.frameTicks > 0 && v.sprite + v.frames - 1 < TWO32
    requires def.frameCount > 0 && def.frameTicks > 0
    requires def.randomPhase ==> Steps(tick, def.frameTicks) + seed < TWO64
    ensures EntityFrame(v, tick) == v.sprite + TickedFrom(v.mode, v.frames, v.frameTicks, Start(), tick).frame
    ensures var start := if def.randomPhase then Played(def.animation, def.frameCount, seed) else Start();
            TileFrame(def, seed, tick) == TickedFrom(def.animation, def.frameCount, def.frameTicks, start, tick).frame
  {
    StartIsPlayed(v.mode, v.frames);
    StartIsPlayed(def.animation, def.frameCount);
    TileStepsFit(def, seed, tick);
    hide EntityFrame, TileFrame, TickedFrom, Next, Played, Steps, TileSteps, Start;
    EntityFrameFollowsPlayhead(v, tick);
    TileFrameFollowsPlayhead(def, seed, tick);
    TickingIsPlaying(v.mode, v.frames, v.frameTicks, 0, tick);
    TickingIsPlaying(def.animation, def.frameCount, def.frameTicks, if def.randomPhase then seed else 0, tick);
  }

  lemma TileStepsFit(def: Body, seed: nat, tick: nat)
    requires def.frameTicks > 0 && (def.randomPhase ==> Steps(tick, def.frameTicks) + seed < TWO64)
    ensures TileSteps(def, seed, tick) == Steps(tick, def.frameTicks) + if def.randomPhase then seed else 0
  {
  }

  lemma StartIsPlayed(mode: AnimationMode, count: nat)
    ensures Played(mode, count, 0) == Start()
  {
  }
}
