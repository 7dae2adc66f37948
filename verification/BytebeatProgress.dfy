/**
 What the PCM ring gets done. The safety laws of BytebeatStream hold of a stream that
 plays nothing; here the two threads are shown to make progress from every state a run
 can reach: the producer renders the next block whenever there is room for one, the
 ring fills and is announced, and the consumer gets the next frame whenever there is one.
 */
module BytebeatProgress {
  import opened BytebeatStream

  /** The state after some steps. */
  function After(s: State, actions: seq<Action>): (t: State)
    requires |s.pcm| == 2 * CAPACITY
    ensures |t.pcm| == 2 * CAPACITY
    decreases |actions|
  {
    if actions == [] then s else After(Step(s, actions[0]), actions[1..])
  }

  ghost predicate AllowedAll(song: Song, s: State, actions: seq<Action>)
    requires |s.pcm| == 2 * CAPACITY
    decreases |actions|
  {
    actions != [] ==> Allowed(song, s, actions[0]) && AllowedAll(song, Step(s, actions[0]), actions[1..])
  }

  /** Steps of the producer thread and its renderer, which does not fail. */
  predicate ByProducer(actions: seq<Action>) {
    forall k :: 0 <= k < |actions| ==> actions[k].Produce? || actions[k].Write? || actions[k] == RenderReturns(true)
  }

  /** How many of the steps are the producer's own, not its renderer's. */
  function OwnSteps(actions: seq<Action>): nat {
    if actions == [] then 0 else (if actions[0].Produce? then 1 else 0) + OwnSteps(actions[1..])
  }

  function Renders(actions: seq<Action>): nat {
    if actions == [] then 0 else (if actions[0].RenderReturns? then 1 else 0) + Renders(actions[1..])
  }

  /** t is reached from s by the producer alone, in at most `own` steps and at most `renders` renders. */
  ghost predicate Reaches(song: Song, s: State, t: State, own: nat, renders: nat)
    requires |s.pcm| == 2 * CAPACITY
  {
    exists actions :: Path(song, s, t, own, renders, actions)
  }

  ghost predicate Path(song: Song, s: State, t: State, own: nat, renders: nat, actions: seq<Action>)
    requires |s.pcm| == 2 * CAPACITY
  {
    && ByProducer(actions) && AllowedAll(song, s, actions) && After(s, actions) == t
    && OwnSteps(actions) <= own && Renders(actions) <= renders
  }

  /** Neither failed nor stopped, nor about to be. */
  predicate Alive(s: State) {
    !s.failed && !s.stopRequested && !s.producer.SetFailed? && !s.producer.SetReady? && !s.producer.Stopped?
  }

  // ---------------------------------------------------------------- composing

  lemma {:induction false} AfterConcat(song: Song, s: State, a: seq<Action>, b: seq<Action>)
    requires |s.pcm| == 2 * CAPACITY
    ensures After(s, a + b) == After(After(s, a), b)
    ensures AllowedAll(song, s, a) && AllowedAll(song, After(s, a), b) ==> AllowedAll(song, s, a + b)
    ensures OwnSteps(a + b) == OwnSteps(a) + OwnSteps(b) && Renders(a + b) == Renders(a) + Renders(b)
    decreases |a|
  {
    hide Step, Allowed;
    if a == [] {
      assert a + b == b;
    } else {
      assert (a + b)[0] == a[0] && (a + b)[1..] == a[1..] + b;
      AfterConcat(song, Step(s, a[0]), a[1..], b);
    }
  }

  lemma ReachesOn(song: Song, s: State, t: State, u: State, own1: nat, own2: nat, renders1: nat, renders2: nat)
    requires |s.pcm| == 2 * CAPACITY && |t.pcm| == 2 * CAPACITY
    requires Reaches(song, s, t, own1, renders1) && Reaches(song, t, u, own2, renders2)
    ensures Reaches(song, s, u, own1 + own2, renders1 + renders2)
  {
    hide After, AllowedAll, OwnSteps, Renders;
    var a :| Path(song, s, t, own1, renders1, a);
    var b :| Path(song, t, u, own2, renders2, b);
    AfterConcat(song, s, a, b);
    assert Path(song, s, u, own1 + own2, renders1 + renders2, a + b);
  }

  lemma ReachesItself(song: Song, s: State)
    requires |s.pcm| == 2 * CAPACITY
    ensures Reaches(song, s, s, 0, 0)
  {
    assert Path(song, s, s, 0, 0, []);
  }

  lemma ReachesNext(song: Song, s: State, t: State)
    requires |s.pcm| == 2 * CAPACITY && t == ProducerStep(s)
    ensures Reaches(song, s, t, 1, 0)
  {
    var a := [Action.Produce];
    assert a[1..] == [];
    hide ProducerStep;
    assert After(s, a) == After(Step(s, a[0]), []) == t;
    assert OwnSteps(a) == 1 + OwnSteps([]) && Renders(a) == Renders([]);
    assert AllowedAll(song, s, a) by { assert AllowedAll(song, t, []); }
    assert Path(song, s, t, 1, 0, a);
  }

  lemma ReachesOneMore(song: Song, s: State, t: State, own: nat, renders: nat)
    requires |s.pcm| == 2 * CAPACITY && |t.pcm| == 2 * CAPACITY && Reaches(song, s, t, own, renders)
    ensures |ProducerStep(t).pcm| == 2 * CAPACITY
    ensures Reaches(song, s, ProducerStep(t), own + 1, renders)
  {
    assert ProducerStep(t) == Step(t, Action.Produce);
    hide ProducerStep, Step, Reaches;
    ReachesNext(song, t, ProducerStep(t));
    ReachesOn(song, s, t, ProducerStep(t), own, 1, renders, 0);
  }

  // ---------------------------------------------------------------- rendering

  /** The sample the renderer has to write at position i of the block. */
  function BlockSample(song: Song, s: State, i: nat): int {
    var frame := song(SampleNumber(s.nextSample + i / 2));
    if i % 2 == 0 then frame.0 else frame.1
  }

  /** The state once the first n samples of the block are written. */
  function Filled(song: Song, s: State, n: nat): (t: State)
    requires |s.pcm| == 2 * CAPACITY && s.producer.Rendering? && Slot(s.producer.write) + BLOCK <= CAPACITY
    requires n <= 2 * BLOCK
    ensures t == s.(pcm := t.pcm) && |t.pcm| == 2 * CAPACITY
    ensures forall i :: 0 <= i < n ==> t.pcm[2 * Slot(s.producer.write) + i] == BlockSample(song, s, i)
  {
    if n == 0 then s
    else
      var t := Filled(song, s, n - 1);
      t.(pcm := t.pcm[2 * Slot(s.producer.write) + n - 1 := BlockSample(song, s, n - 1)])
  }

  lemma {:induction false} ReachesFilled(song: Song, s: State, n: nat)
    requires |s.pcm| == 2 * CAPACITY && s.producer.Rendering? && Slot(s.producer.write) + BLOCK <= CAPACITY
    requires n <= 2 * BLOCK
    ensures Reaches(song, s, Filled(song, s, n), 0, 0)
  {
    hide Reaches, BlockSample, Slot;
    if n == 0 {
      ReachesItself(song, s);
    } else {
      ReachesFilled(song, s, n - 1);
      var (t, v) := (Filled(song, s, n - 1), BlockSample(song, s, n - 1));
      ReachesByWriting(song, t, n - 1, v);
      assert Step(t, Write(n - 1, v)) == Filled(song, s, n);
      ReachesOn(song, s, t, Filled(song, s, n), 0, 0, 0, 0);
    }
  }

  lemma ReachesByWriting(song: Song, s: State, i: nat, v: int)
    requires |s.pcm| == 2 * CAPACITY
    ensures Reaches(song, s, Step(s, Write(i, v)), 0, 0)
  {
    var a := [Write(i, v)];
    assert a[1..] == [];
    hide Step;
    assert After(s, a) == After(Step(s, a[0]), []);
    assert AllowedAll(song, s, a) by { assert AllowedAll(song, Step(s, a[0]), []); }
    assert OwnSteps(a) == OwnSteps([]) && Renders(a) == Renders([]);
    assert Path(song, s, Step(s, a[0]), 0, 0, a);
  }

  lemma BlockIsFilled(song: Song, s: State)
    requires |s.pcm| == 2 * CAPACITY && s.producer.Rendering? && Slot(s.producer.write) + BLOCK <= CAPACITY
    ensures Allowed(song, Filled(song, s, 2 * BLOCK), RenderReturns(true))
  {
    var t := Filled(song, s, 2 * BLOCK);
    hide Slot, SampleNumber, Filled, Rendered, BlockSample;
    forall i | 0 <= i < BLOCK ensures Rendered(song, t.pcm, Slot(s.producer.write), t.nextSample, i) {
      FrameIsWritten(song, s, t.pcm, i);
    }
  }

  lemma FrameIsWritten(song: Song, s: State, pcm: seq<int>, i: nat)
    requires s.producer.Rendering? && i < BLOCK && Slot(s.producer.write) + BLOCK <= CAPACITY && |pcm| == 2 * CAPACITY
    requires pcm[2 * Slot(s.producer.write) + 2 * i] == BlockSample(song, s, 2 * i)
    requires pcm[2 * Slot(s.producer.write) + (2 * i + 1)] == BlockSample(song, s, 2 * i + 1)
    ensures Rendered(song, pcm, Slot(s.producer.write), s.nextSample, i)
  {
    assert (2 * i) / 2 == i && (2 * i + 1) / 2 == i;
    hide Slot, SampleNumber;
  }

  /** From a block being rendered the renderer can return with the whole block written. */
  lemma ReachesAdvance(song: Song, s: State) returns (t: State)
    requires Invariant(song, s) && s.producer.Rendering?
    ensures t == s.(pcm := t.pcm, producer := Advance(s.producer.read, s.producer.write)) && |t.pcm| == 2 * CAPACITY
    ensures Reaches(song, s, t, 0, 1) && Invariant(song, t)
  {
    SlotOfSequence(s.produced);
    BlockIsContiguous(s.produced, 0);
    hide Wrap, Slot, Aligned, SampleNumber, Minus, HoldsFrames, DeliversInOrder, Frame, Reaches, Filled;
    var f := Filled(song, s, 2 * BLOCK);
    ReachesFilled(song, s, 2 * BLOCK);
    BlockIsFilled(song, s);
    t := Step(f, RenderReturns(true));
    ReachesReturn(song, f);
    ReachesOn(song, s, f, t, 0, 0, 0, 1);
    ReachedIsSafe(song, s, t, 0, 1);
  }

  lemma ReachesReturn(song: Song, s: State)
    requires |s.pcm| == 2 * CAPACITY && Allowed(song, s, RenderReturns(true))
    ensures Reaches(song, s, Step(s, RenderReturns(true)), 0, 1)
  {
    var a := [RenderReturns(true)];
    assert a[1..] == [];
    hide Step, Allowed;
    assert After(s, a) == After(Step(s, a[0]), []);
    assert AllowedAll(song, s, a) by { assert AllowedAll(song, Step(s, a[0]), []); }
    assert Renders(a) == 1 + Renders([]);
    assert Path(song, s, Step(s, a[0]), 0, 1, a);
  }

  lemma {:induction false} AfterIsSafe(song: Song, s: State, actions: seq<Action>)
    requires Invariant(song, s) && AllowedAll(song, s, actions)
    ensures Invariant(song, After(s, actions))
    decreases |actions|
  {
    hide Step, Allowed;
    assert |s.pcm| == 2 * CAPACITY;
    hide Invariant;
    if actions != [] {
      StepPreserves(song, s, actions[0]);
      AfterIsSafe(song, Step(s, actions[0]), actions[1..]);
    }
  }

  lemma ReachedIsSafe(song: Song, s: State, t: State, own: nat, renders: nat)
    requires Invariant(song, s) && Reaches(song, s, t, own, renders)
    ensures Invariant(song, t)
  {
    assert |s.pcm| == 2 * CAPACITY;
    hide Invariant, After, AllowedAll;
    var a :| Path(song, s, t, own, renders, a);
    AfterIsSafe(song, s, a);
  }

  // ------------------------------------------------------------ the producer

  predicate HasSpace(s: State) { s.produced + BLOCK <= s.consumed + CAPACITY }

  /** The consumer's part of the state, and the flags no producer at work clears. */
  predicate Undisturbed(s: State, t: State) {
    && t.consumer == s.consumer && t.consumed == s.consumed && t.delivered == s.delivered
    && t.readSequence == s.readSequence && t.underruns == s.underruns
    && t.stopRequested == s.stopRequested && (s.ready ==> t.ready)
  }

  /** t is the state one block later, the producer again at the top of its loop; a full ring is announced. */
  predicate BlockLater(s: State, t: State) {
    && Undisturbed(s, t) && Alive(t) && t.producer == Top
    && t.produced == s.produced + BLOCK && (Full(t) ==> t.ready)
  }

  lemma NextIsSafe(song: Song, s: State)
    requires Invariant(song, s)
    ensures Invariant(song, ProducerStep(s)) && |s.pcm| == 2 * CAPACITY
  {
    assert ProducerStep(s) == Step(s, Action.Produce);
    hide Invariant, ProducerStep, Step;
    StepPreserves(song, s, Action.Produce);
    assert |s.pcm| == 2 * CAPACITY by { InvariantLength(song, s); }
  }

  lemma InvariantLength(song: Song, s: State)
    requires Invariant(song, s)
    ensures |s.pcm| == 2 * CAPACITY
  {
  }

  /** One more step of the producer after t. */
  lemma OnwardStep(song: Song, s: State, t: State, own: nat, renders: nat) returns (u: State)
    requires Invariant(song, s) && Invariant(song, t) && |s.pcm| == 2 * CAPACITY && Reaches(song, s, t, own, renders)
    ensures u == ProducerStep(t) && Invariant(song, u) && |u.pcm| == 2 * CAPACITY
    ensures Reaches(song, s, u, own + 1, renders)
  {
    hide Invariant, Reaches, ProducerStep;
    InvariantLength(song, t);
    NextIsSafe(song, t);
    u := ProducerStep(t);
    ReachesOneMore(song, s, t, own, renders);
  }

  /** The block only has to be published. */
  lemma Publishes(song: Song, s: State) returns (t: State)
    requires Invariant(song, s) && Alive(s) && s.producer.Publish?
    ensures |s.pcm| == 2 * CAPACITY && Reaches(song, s, t, 2, 0) && BlockLater(s, t) && Invariant(song, t)
  {
    InvariantLength(song, s);
    MinusOfCounts(s.produced, s.consumed);
    ReachesItself(song, s);
    assert Loaded(s, s.producer.read, s.producer.write) && HasRoom(s, s.producer.read, s.producer.write);
    hide Reaches, Invariant, Wrap, SampleNumber, Minus;
    var a := OnwardStep(song, s, s, 0, 0);
    t := OnwardStep(song, s, a, 1, 0);
  }

  /** The block is rendered: the song moves on and the block is published. */
  lemma FinishesBlock(song: Song, s: State) returns (t: State)
    requires Invariant(song, s) && Alive(s)
    requires s.producer.Advance? || s.producer.Publish?
    ensures |s.pcm| == 2 * CAPACITY && Reaches(song, s, t, 3, 0) && BlockLater(s, t) && Invariant(song, t)
  {
    hide Reaches, Invariant, Wrap, SampleNumber, Minus;
    InvariantLength(song, s);
    if s.producer.Advance? {
      ReachesItself(song, s);
      var a := OnwardStep(song, s, s, 0, 0);
      t := Publishes(song, a);
      ReachesOn(song, s, a, t, 1, 2, 0, 0);
    } else {
      t := Publishes(song, s);
      ReachesWithin(song, s, t, 2, 0, 3, 0);
    }
  }

  lemma ReachesWithin(song: Song, s: State, t: State, own: nat, renders: nat, own': nat, renders': nat)
    requires |s.pcm| == 2 * CAPACITY && Reaches(song, s, t, own, renders) && own <= own' && renders <= renders'
    ensures Reaches(song, s, t, own', renders')
  {
    hide After, AllowedAll;
    var a :| Path(song, s, t, own, renders, a);
    assert Path(song, s, t, own', renders', a);
  }

  /** The renderer has been called. */
  lemma RendersBlock(song: Song, s: State) returns (t: State)
    requires Invariant(song, s) && Alive(s) && s.producer.Rendering?
    ensures |s.pcm| == 2 * CAPACITY && Reaches(song, s, t, 3, 1) && BlockLater(s, t) && Invariant(song, t)
  {
    hide Reaches, Invariant;
    InvariantLength(song, s);
    var a := ReachesAdvance(song, s);
    t := FinishesBlock(song, a);
    ReachesOn(song, s, a, t, 0, 3, 1, 0);
  }

  /** There was room when the counters were read: a block is rendered and published. */
  lemma DecidesToRender(song: Song, s: State) returns (t: State)
    requires Invariant(song, s) && Alive(s)
    requires s.producer.Decide? && Minus(s.producer.write, s.producer.read) <= CAPACITY - BLOCK
    ensures |s.pcm| == 2 * CAPACITY && Reaches(song, s, t, 4, 1) && BlockLater(s, t) && Invariant(song, t)
  {
    InvariantLength(song, s);
    hide Invariant, Reaches, Wrap, Minus, SampleNumber;
    ReachesItself(song, s);
    var d := OnwardStep(song, s, s, 0, 0);
    assert d.producer.Rendering?;
    t := RendersBlock(song, d);
    ReachesOn(song, s, d, t, 1, 3, 0, 1);
  }

  /** The counters are read and there is room. */
  lemma ReadsAndRenders(song: Song, s: State) returns (t: State)
    requires Invariant(song, s) && Alive(s) && HasSpace(s) && s.producer.LoadRead?
    ensures |s.pcm| == 2 * CAPACITY && Reaches(song, s, t, 6, 1) && BlockLater(s, t) && Invariant(song, t)
  {
    InvariantLength(song, s);
    MinusOfCounts(s.produced, s.consumed);
    assert CountsAgree(s);
    hide Invariant, Reaches, Wrap, Minus, SampleNumber;
    ReachesItself(song, s);
    var b := OnwardStep(song, s, s, 0, 0);
    var c := OnwardStep(song, s, b, 1, 0);
    t := DecidesToRender(song, c);
    ReachesOn(song, s, c, t, 2, 4, 0, 1);
  }

  /** From the top of the loop, or just past it. */
  lemma LoadsAndRenders(song: Song, s: State) returns (t: State)
    requires Invariant(song, s) && Alive(s) && HasSpace(s) && (s.producer.Top? || s.producer.LoadRead?)
    ensures |s.pcm| == 2 * CAPACITY && Reaches(song, s, t, 7, 1) && BlockLater(s, t) && Invariant(song, t)
  {
    hide Invariant, Reaches, Wrap, Minus, SampleNumber;
    InvariantLength(song, s);
    if s.producer.Top? {
      ReachesItself(song, s);
      var a := OnwardStep(song, s, s, 0, 0);
      t := ReadsAndRenders(song, a);
      ReachesOn(song, s, a, t, 1, 6, 0, 1);
    } else {
      t := ReadsAndRenders(song, s);
      ReachesWithin(song, s, t, 6, 1, 7, 1);
    }
  }

  /** From waiting, or just after publishing, back to the top of the loop. */
  lemma ReturnsToTop(song: Song, s: State) returns (t: State)
    requires Invariant(song, s) && Alive(s)
    requires s.producer.ReadyThenWait? || s.producer.Waiting? || s.producer.AfterPublish?
    ensures |s.pcm| == 2 * CAPACITY && Reaches(song, s, t, 2, 0) && Invariant(song, t)
    ensures t.producer == Top && Alive(t) && Undisturbed(s, t) && t.produced == s.produced
  {
    hide Invariant, Reaches, Wrap, Minus, SampleNumber;
    InvariantLength(song, s);
    ReachesItself(song, s);
    var a := OnwardStep(song, s, s, 0, 0);
    t := a;
    if a.producer.Waiting? { t := OnwardStep(song, s, a, 1, 0); }
    ReachesWithin(song, s, t, if a.producer.Waiting? then 2 else 1, 0, 2, 0);
  }

  /** With counters loaded, perhaps long ago: a decision to render, or to wait although room has come up since. */
  lemma Decides(song: Song, s: State) returns (t: State)
    requires Invariant(song, s) && Alive(s) && (s.producer.LoadWrite? || s.producer.Decide?)
    ensures |s.pcm| == 2 * CAPACITY && Reaches(song, s, t, 2, 0) && Invariant(song, t)
    ensures t.producer.Rendering? || t.producer.ReadyThenWait? || t.producer.Waiting?
    ensures Alive(t) && Undisturbed(s, t) && t.produced == s.produced
  {
    InvariantLength(song, s);
    ReachesItself(song, s);
    assert s.producer.LoadWrite? ==> Loaded(s, s.producer.read, s.writeSequence);
    assert s.producer.Decide? ==> Loaded(s, s.producer.read, s.producer.write);
    hide Invariant, Reaches, Wrap, Minus, SampleNumber;
    var a := s;
    if s.producer.LoadWrite? { a := OnwardStep(song, s, s, 0, 0); }
    var n := if s.producer.LoadWrite? then 1 else 0;
    t := OnwardStep(song, s, a, n, 0);
    ReachesWithin(song, s, t, n + 1, 0, 2, 0);
  }

  /** The producer makes progress: from every state a run can reach, unless it failed or is told to stop, and as long
      as there is room for a block, the producer thread with at most one successful render publishes the next block in
      at most eleven steps of its own, whatever it was doing. */
  lemma ProducerProgresses(song: Song, s: State) returns (t: State)
    requires Invariant(song, s) && Alive(s) && HasSpace(s)
    ensures |s.pcm| == 2 * CAPACITY && Reaches(song, s, t, 11, 1) && BlockLater(s, t) && Invariant(song, t)
  {
    hide Invariant, Reaches, Full;
    InvariantLength(song, s);
    ReachesItself(song, s);
    var (a, n) := (s, 0);
    if s.producer.LoadWrite? || s.producer.Decide? {
      a := Decides(song, s);
      n := 2;
    }
    var b, m := a, n;
    assert Reaches(song, s, a, n, 0) && Undisturbed(s, a) && Alive(a) && a.produced == s.produced && Invariant(song, a);
    InvariantLength(song, a);
    if a.producer.ReadyThenWait? || a.producer.Waiting? || a.producer.AfterPublish? {
      b := ReturnsToTop(song, a);
      ReachesOn(song, s, a, b, n, 2, 0, 0);
      m := n + 2;
    }
    InvariantLength(song, b);
    if b.producer.Rendering? { t := RendersBlock(song, b); }
    else if b.producer.Top? || b.producer.LoadRead? { t := LoadsAndRenders(song, b); }
    else { t := FinishesBlock(song, b); }
    ReachesWithin(song, b, t, if b.producer.Rendering? then 3 else if b.producer.Top? || b.producer.LoadRead? then 7 else 3,
                  if b.producer.Advance? || b.producer.Publish? then 0 else 1, 7, 1);
    ReachesOn(song, s, b, t, m, 7, 0, 1);
    ReachesWithin(song, s, t, m + 7, 1, 11, 1);
  }

  /** From the start, n successful renders and no read put n blocks into the ring. */
  lemma {:induction false} RingFills(song: Song, n: nat) returns (t: State)
    requires n * BLOCK <= CAPACITY
    ensures Reaches(song, Initial(), t, 11 * n, n) && Invariant(song, t)
    ensures Alive(t) && t.produced == n * BLOCK && t.consumed == 0 && (Full(t) ==> t.ready)
  {
    hide Reaches, Invariant;
    InitialHolds(song);
    if n == 0 {
      t := Initial();
      ReachesItself(song, t);
    } else {
      var s := RingFills(song, n - 1);
      InvariantLength(song, s);
      t := ProducerProgresses(song, s);
      ReachesOn(song, Initial(), s, t, 11 * (n - 1), 11, n - 1, 1);
    }
  }

  /** Prebuffering ends: with a renderer that succeeds and no reads, eight renders fill the ring and announce it. */
  lemma PrebufferingEnds(song: Song) returns (t: State)
    ensures Reaches(song, Initial(), t, 88, CAPACITY / BLOCK)
    ensures Full(t) && t.ready && !t.failed && t.produced == CAPACITY
  {
    hide Reaches, Invariant;
    t := RingFills(song, 8);
  }

  // ------------------------------------------------------------ the consumer

  function ReadSteps(s: State, n: nat): (t: State)
    requires |s.pcm| == 2 * CAPACITY
    ensures |t.pcm| == 2 * CAPACITY
  {
    if n == 0 then s else ConsumerStep(ReadSteps(s, n - 1))
  }

  /** How many steps of a read are still to come. */
  function StepsLeft(c: Consumer): nat {
    match c
    case Idle => 7 case CheckFailed => 6 case ConsumerLoadRead => 5 case ConsumerLoadWrite(_) => 4
    case TakeLeft(_) => 3 case TakeRight(_, _) => 2 case Release(_, _, _) => 1
  }

  lemma {:induction false} ReadStepsAgain(s: State, n: nat)
    requires |s.pcm| == 2 * CAPACITY
    ensures |ConsumerStep(s).pcm| == 2 * CAPACITY
    ensures ReadSteps(s, n + 1) == ReadSteps(ConsumerStep(s), n)
  {
    hide ConsumerStep;
    assert ConsumerStep(s) == Step(s, Action.Consume);
    if n > 0 { ReadStepsAgain(s, n - 1); }
  }

  lemma OneReadStep(song: Song, s: State)
    requires Invariant(song, s) && s.ready && !s.failed && s.consumed < s.produced
    ensures |s.pcm| == 2 * CAPACITY
    ensures var t := ConsumerStep(s);
            && Invariant(song, t) && t.produced == s.produced && t.ready && !t.failed
            && (if s.consumer.Release? then
                  t.consumed == s.consumed + 1 && t.delivered == s.delivered + [Frame(song, s.consumed)]
                else t.consumed == s.consumed && t.delivered == s.delivered
                     && StepsLeft(t.consumer) == StepsLeft(s.consumer) - 1)
  {
    ConsumerMoves(song, s);
    SameCounts(s.produced, s.consumed);
    hide Slot, SampleNumber, HoldsFrames, DeliversInOrder, Wrap, Minus, Frame;
  }

  /** The consumer makes progress: from every state a run can reach with the stream ready, not failed, and a frame
      waiting, at most seven steps of the consumer deliver that frame. */
  lemma {:induction false} ConsumerProgresses(song: Song, s: State)
    requires Invariant(song, s) && s.ready && !s.failed && s.consumed < s.produced
    ensures |s.pcm| == 2 * CAPACITY && StepsLeft(s.consumer) <= 7
    ensures var t := ReadSteps(s, StepsLeft(s.consumer));
            t.consumed == s.consumed + 1 && t.delivered == s.delivered + [song(SampleNumber(s.consumed))]
    decreases StepsLeft(s.consumer)
  {
    OneReadStep(song, s);
    hide Invariant, ConsumerStep, SampleNumber;
    var t := ConsumerStep(s);
    ReadStepsAgain(s, StepsLeft(s.consumer) - 1);
    if !s.consumer.Release? { ConsumerProgresses(song, t); }
  }

  /** Both, of every state of every run. */
  lemma RunsProgress(song: Song, actions: seq<Action>)
    requires Possible(song, actions)
    ensures var s := Run(actions);
            && (Alive(s) && HasSpace(s) ==> exists t :: Reaches(song, s, t, 11, 1) && BlockLater(s, t))
            && (s.ready && !s.failed && s.consumed < s.produced ==>
                  ReadSteps(s, StepsLeft(s.consumer)).delivered == s.delivered + [song(SampleNumber(s.consumed))])
  {
    RunIsSafe(song, actions);
    var s := Run(actions);
    hide Invariant, Reaches, BlockLater, Run, ReadSteps, Possible;
    if Alive(s) && HasSpace(s) { var t := ProducerProgresses(song, s); }
    if s.ready && !s.failed && s.consumed < s.produced { ConsumerProgresses(song, s); }
  }

  // ----------------------------------------------------------------- endings

  /** A failed render ends the stream for good, and says so: failed and ready are set and the producer stops. */
  lemma FailedRenderEnds(s: State)
    requires |s.pcm| == 2 * CAPACITY && s.producer.Rendering?
    ensures var t := ProducerStep(ProducerStep(Step(s, RenderReturns(false))));
            && t.failed && t.ready && t.producer.Stopped? && ProducerStep(t) == t
            && t.produced == s.produced && t.writeSequence == s.writeSequence
  {
  }
}
