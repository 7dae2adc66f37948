/**
 The PCM ring between the rendering thread and the audio callback, as a transition
 system whose steps are the individual loads, stores and sample writes of both
 threads. Sequence numbers are the 32-bit counters of the source; `produced` and
 `consumed` are the unbounded counts behind them and belong to the proof only.
 */
module BytebeatStream {
  import opened Common

  const BLOCK := 4096
  const CAPACITY := 32768

  /** What the rendered program plays: the two channels of every sample number. */
  type Song = nat -> (int, int)

  /** Where the producer thread is, with the sequence numbers it has loaded. */
  datatype Producer =
    | Top | LoadRead | LoadWrite(read: nat) | Decide(read: nat, write: nat)
    | ReadyThenWait | Waiting | Rendering(read: nat, write: nat)
    | Advance(read: nat, write: nat) | Publish(read: nat, write: nat) | AfterPublish(full: bool)
    | SetFailed | SetReady | Stopped

  /** Where the consumer is inside one read. */
  datatype Consumer =
    | Idle | CheckFailed | ConsumerLoadRead | ConsumerLoadWrite(read: nat)
    | TakeLeft(read: nat) | TakeRight(read: nat, left: int) | Release(read: nat, left: int, right: int)

  datatype State = State(
    readSequence: nat, writeSequence: nat, ready: bool, failed: bool, stopRequested: bool, underruns: nat,
    nextSample: nat, pcm: seq<int>, producer: Producer, consumer: Consumer,
    produced: nat, consumed: nat, delivered: seq<(int, int)>, wasFull: bool)

  /** One step: of the producer, one sample written by the renderer, the renderer's return, of the consumer,
      or the request to stop. */
  datatype Action = Produce | Write(sample: nat, value: int) | RenderReturns(ok: bool) | Consume | RequestStop

  /** 32-bit subtraction. */
  function Minus(a: nat, b: nat): (d: nat)
    ensures d < TWO32
  {
    (a - b) % TWO32
  }

  function Wrap(n: nat): nat { n % TWO32 }

  function SampleNumber(n: nat): nat { n % TWO64 }

  predicate Aligned(n: nat) { n % BLOCK == 0 }

  function Slot(sequence: nat): (slot: nat)
    ensures slot < CAPACITY
  {
    sequence % CAPACITY
  }

  function Initial(): State {
    State(0, 0, false, false, false, 0, 0, seq(2 * CAPACITY, _ => 0), Top, Idle, 0, 0, [], false)
  }

  // ------------------------------------------------------------------- steps

  function Decided(read: nat, write: nat): Producer {
    var used := Minus(write, read);
    if used > CAPACITY then SetFailed
    else if CAPACITY - used < BLOCK then (if used == CAPACITY then ReadyThenWait else Waiting)
    else Rendering(read, write)
  }

  function ProducerStep(s: State): State {
    match s.producer
    case Top => s.(producer := if s.stopRequested then Stopped else LoadRead)
    case LoadRead => s.(producer := LoadWrite(s.readSequence))
    case LoadWrite(r) => s.(producer := Decide(r, s.writeSequence))
    case Decide(r, w) => s.(producer := Decided(r, w))
    case ReadyThenWait => s.(ready := true, producer := Waiting)
    case Waiting => s.(producer := Top)
    case Rendering(_, _) => s
    case Advance(r, w) => s.(nextSample := SampleNumber(s.nextSample + BLOCK), producer := Publish(r, w))
    case Publish(r, w) =>
      s.(writeSequence := Wrap(w + BLOCK), producer := AfterPublish(Minus(w, r) + BLOCK == CAPACITY),
         produced := s.produced + BLOCK, wasFull := s.wasFull || s.produced + BLOCK == s.consumed + CAPACITY)
    case AfterPublish(full) => s.(ready := s.ready || full, producer := Top)
    case SetFailed => s.(failed := true, producer := SetReady)
    case SetReady => s.(ready := true, producer := Stopped)
    case Stopped => s
  }

  function ConsumerStep(s: State): State
    requires |s.pcm| == 2 * CAPACITY
  {
    match s.consumer
    case Idle => s.(consumer := if s.ready then CheckFailed else Idle)
    case CheckFailed => s.(consumer := if s.failed then Idle else ConsumerLoadRead)
    case ConsumerLoadRead => s.(consumer := ConsumerLoadWrite(s.readSequence))
    case ConsumerLoadWrite(r) =>
      if r == s.writeSequence then s.(consumer := Idle, underruns := Wrap(s.underruns + 1))
      else s.(consumer := TakeLeft(r))
    case TakeLeft(r) => s.(consumer := TakeRight(r, s.pcm[2 * Slot(r)]))
    case TakeRight(r, left) => s.(consumer := Release(r, left, s.pcm[2 * Slot(r) + 1]))
    case Release(r, left, right) =>
      s.(readSequence := Wrap(r + 1), consumer := Idle,
         consumed := s.consumed + 1, delivered := s.delivered + [(left, right)])
  }

  function Step(s: State, a: Action): (t: State)
    requires |s.pcm| == 2 * CAPACITY
    ensures |t.pcm| == 2 * CAPACITY
  {
    match a
    case Produce => ProducerStep(s)
    case Write(i, v) =>
      if s.producer.Rendering? && i < 2 * BLOCK && 2 * Slot(s.producer.write) + i < 2 * CAPACITY then
        s.(pcm := s.pcm[2 * Slot(s.producer.write) + i := v])
      else s
    case RenderReturns(ok) =>
      if !s.producer.Rendering? then s
      else s.(producer := if ok then Advance(s.producer.read, s.producer.write) else SetFailed)
    case Consume => ConsumerStep(s)
    case RequestStop => s.(stopRequested := true)
  }

  /** The slot of the ring holds this frame. */
  predicate Holds(pcm: seq<int>, slot: nat, frame: (int, int)) {
    2 * slot + 1 < |pcm| && pcm[2 * slot] == frame.0 && pcm[2 * slot + 1] == frame.1
  }

  predicate Rendered(song: Song, pcm: seq<int>, slot: nat, sample: nat, i: nat) {
    Holds(pcm, slot + i, song(SampleNumber(sample + i)))
  }

  /** The renderer's promise when it returns success: the block holds the frames from the sample it was asked for. */
  ghost predicate Allowed(song: Song, s: State, a: Action) {
    a == RenderReturns(true) && s.producer.Rendering? ==>
      forall i :: 0 <= i < BLOCK ==> Rendered(song, s.pcm, Slot(s.producer.write), s.nextSample, i)
  }

  /** The state after a sequence of steps, in any interleaving. */
  function Run(actions: seq<Action>): (s: State)
    ensures |s.pcm| == 2 * CAPACITY
  {
    if actions == [] then Initial() else Step(Run(actions[..|actions| - 1]), actions[|actions| - 1])
  }

  ghost predicate Possible(song: Song, actions: seq<Action>) {
    forall n :: 0 <= n < |actions| ==> Allowed(song, Run(actions[..n]), actions[n])
  }

  // --------------------------------------------------------------- invariant

  function Frame(song: Song, k: nat): (int, int) { song(SampleNumber(k)) }

  predicate CountsAgree(s: State) {
    && s.readSequence == Wrap(s.consumed)
    && s.writeSequence == Wrap(s.produced)
    && s.consumed <= s.produced <= s.consumed + CAPACITY
    && Aligned(s.produced)
    && |s.delivered| == s.consumed
    && s.nextSample == SampleNumber(if s.producer.Publish? then s.produced + BLOCK else s.produced)
  }

  /** The producer's loaded read number: one the consumer has passed since, but by no more than the ring holds. */
  predicate Loaded(s: State, read: nat, write: nat) {
    var used := Minus(write, read);
    && write == Wrap(s.produced)
    && used <= CAPACITY && used <= s.produced && s.produced - used <= s.consumed
    && read == Wrap(s.produced - used)
  }

  predicate HasRoom(s: State, read: nat, write: nat) {
    Minus(write, read) + BLOCK <= CAPACITY && s.produced + BLOCK <= s.consumed + CAPACITY
  }

  ghost predicate HoldsFrames(song: Song, pcm: seq<int>, from: nat, to: nat) {
    forall k: nat :: from <= k < to ==> Holds(pcm, Slot(k), Frame(song, k))
  }

  ghost predicate ProducerAgrees(song: Song, s: State) {
    match s.producer
    case LoadWrite(r) => Loaded(s, r, s.writeSequence)
    case Decide(r, w) => Loaded(s, r, w)
    case Rendering(r, w) => Loaded(s, r, w) && HasRoom(s, r, w)
    case Advance(r, w) => Loaded(s, r, w) && HasRoom(s, r, w) && HoldsFrames(song, s.pcm, s.produced, s.produced + BLOCK)
    case Publish(r, w) => Loaded(s, r, w) && HasRoom(s, r, w) && HoldsFrames(song, s.pcm, s.produced, s.produced + BLOCK)
    case _ => true
  }

  predicate ConsumerAgrees(song: Song, s: State) {
    match s.consumer
    case ConsumerLoadWrite(r) => r == s.readSequence
    case TakeLeft(r) => r == s.readSequence && s.consumed < s.produced
    case TakeRight(r, left) => r == s.readSequence && s.consumed < s.produced && left == Frame(song, s.consumed).0
    case Release(r, left, right) =>
      r == s.readSequence && s.consumed < s.produced && (left, right) == Frame(song, s.consumed)
    case _ => true
  }

  /** Why nothing is delivered before the ring was full. */
  predicate Prebuffers(s: State) {
    && (s.ready && !s.failed ==> s.wasFull)
    && (s.producer.SetReady? ==> s.failed)
    && (s.producer.ReadyThenWait? ==> s.wasFull)
    && (s.producer.AfterPublish? && s.producer.full ==> s.wasFull)
    && (s.produced == s.consumed + CAPACITY ==> s.wasFull)
    && (s.consumed > 0 ==> s.wasFull)
    && (s.consumer.CheckFailed? ==> s.ready)
    && (!s.consumer.Idle? && !s.consumer.CheckFailed? ==> s.wasFull)
  }

  predicate DeliversInOrder(song: Song, delivered: seq<(int, int)>) {
    forall k :: 0 <= k < |delivered| ==> delivered[k] == Frame(song, k)
  }

  ghost predicate Invariant(song: Song, s: State) {
    && |s.pcm| == 2 * CAPACITY
    && CountsAgree(s)
    && HoldsFrames(song, s.pcm, s.consumed, s.produced)
    && ProducerAgrees(song, s)
    && ConsumerAgrees(song, s)
    && Prebuffers(s)
    && DeliversInOrder(song, s.delivered)
  }

  // -------------------------------------------------- arithmetic of the ring

  lemma SlotIsUnique(k: nat, q: nat, slot: nat)
    requires k == q * CAPACITY + slot && slot < CAPACITY
    ensures Slot(k) == slot
  {
  }

  lemma SlotOfSequence(k: nat)
    ensures Slot(Wrap(k)) == Slot(k)
  {
    var q, m := k / TWO32, k % TWO32;
    SlotIsUnique(k, 131072 * q + m / CAPACITY, m % CAPACITY);
  }

  /** A block begins far enough from the ring's end, so its frames lie in consecutive slots. */
  lemma BlockIsContiguous(from: nat, i: nat)
    requires Aligned(from) && i < BLOCK
    ensures Slot(from) + BLOCK <= CAPACITY && Slot(from + i) == Slot(from) + i
  {
    var q := from / BLOCK;
    SlotIsUnique(from, q / 8, (q % 8) * BLOCK);
    SlotIsUnique(from + i, q / 8, (q % 8) * BLOCK + i);
  }

  lemma SlotsDiffer(a: nat, b: nat)
    requires a < b < a + CAPACITY
    ensures Slot(a) != Slot(b)
  {
  }

  lemma MinusOfCounts(w: nat, r: nat)
    requires r <= w < r + TWO32
    ensures Minus(Wrap(w), Wrap(r)) == w - r
  {
    assert w == (w / TWO32) * TWO32 + w % TWO32 && r == (r / TWO32) * TWO32 + r % TWO32;
    var d := w % TWO32 - r % TWO32;
    assert d == (w - r) - (w / TWO32 - r / TWO32) * TWO32;
  }

  lemma SameCounts(w: nat, r: nat)
    requires r <= w < r + TWO32
    ensures Wrap(w) == Wrap(r) <==> w == r
  {
    MinusOfCounts(w, r);
  }

  lemma WrapIsUnique(n: nat, q: nat, r: nat)
    requires n == q * TWO32 + r && r < TWO32
    ensures Wrap(n) == r
  {
  }

  lemma SampleIsUnique(n: nat, q: nat, r: nat)
    requires n == q * TWO64 + r && r < TWO64
    ensures SampleNumber(n) == r
  {
  }

  lemma SequenceMoves(k: nat, n: nat)
    ensures Wrap(Wrap(k) + n) == Wrap(k + n)
  {
    var m := Wrap(k) + n;
    WrapIsUnique(k + n, k / TWO32 + m / TWO32, m % TWO32);
  }

  lemma SampleMoves(k: nat, n: nat)
    ensures SampleNumber(SampleNumber(k) + n) == SampleNumber(k + n)
  {
    var m := SampleNumber(k) + n;
    SampleIsUnique(k + n, k / TWO64 + m / TWO64, m % TWO64);
  }

  lemma BlockAligns(k: nat)
    requires Aligned(k)
    ensures Aligned(k + BLOCK)
  {
  }

  // ---------------------------------------------------------- preservation

  lemma InitialHolds(song: Song)
    ensures Invariant(song, Initial())
  {
  }

  lemma ConsumerUnmoved(song: Song, s: State, t: State)
    requires ConsumerAgrees(song, s)
    requires t.consumer == s.consumer && t.consumed == s.consumed && t.produced >= s.produced
    requires t.readSequence == s.readSequence
    ensures ConsumerAgrees(song, t)
  {
    hide Frame;
  }

  lemma ProducerLoads(song: Song, s: State)
    requires Invariant(song, s) && (s.producer.LoadRead? || s.producer.LoadWrite?)
    ensures Invariant(song, ProducerStep(s))
  {
    MinusOfCounts(s.produced, s.consumed);
    ConsumerUnmoved(song, s, ProducerStep(s));
    hide Wrap, SampleNumber, Aligned, HoldsFrames, Frame, Slot, DeliversInOrder, Minus, ConsumerAgrees;
  }

  lemma ProducerDecides(song: Song, s: State)
    requires Invariant(song, s) && s.producer.Decide?
    ensures Invariant(song, ProducerStep(s))
  {
    ConsumerUnmoved(song, s, ProducerStep(s));
    hide Wrap, SampleNumber, Aligned, HoldsFrames, Frame, Slot, DeliversInOrder, Minus, ConsumerAgrees;
  }

  /** The remaining producer steps set flags or only move on. */
  lemma ProducerSignals(song: Song, s: State)
    requires Invariant(song, s) && !s.producer.LoadRead? && !s.producer.LoadWrite? && !s.producer.Decide?
    requires !s.producer.Advance? && !s.producer.Publish? && !s.producer.Rendering?
    ensures Invariant(song, ProducerStep(s))
  {
    hide Wrap, SampleNumber, Aligned, HoldsFrames, Frame, Slot, DeliversInOrder, Minus, Loaded, HasRoom;
    var t := ProducerStep(s);
    assert Prebuffers(t);
    hide Prebuffers;
    ConsumerUnmoved(song, s, t);
    hide ConsumerAgrees;
  }

  lemma ProducerAdvances(song: Song, s: State)
    requires Invariant(song, s) && s.producer.Advance?
    ensures Invariant(song, ProducerStep(s))
  {
    SampleMoves(s.produced, BLOCK);
    ConsumerUnmoved(song, s, ProducerStep(s));
    hide Wrap, SampleNumber, Aligned, HoldsFrames, Frame, Slot, DeliversInOrder, Minus, ConsumerAgrees;
  }

  lemma FramesJoin(song: Song, pcm: seq<int>, a: nat, b: nat, c: nat)
    requires HoldsFrames(song, pcm, a, b) && HoldsFrames(song, pcm, b, c)
    ensures HoldsFrames(song, pcm, a, c)
  {
  }

  lemma ProducerPublishes(song: Song, s: State)
    requires Invariant(song, s) && s.producer.Publish?
    ensures Invariant(song, ProducerStep(s))
  {
    FramesJoin(song, s.pcm, s.consumed, s.produced, s.produced + BLOCK);
    SequenceMoves(s.produced, BLOCK);
    BlockAligns(s.produced);
    ConsumerUnmoved(song, s, ProducerStep(s));
    hide Wrap, SampleNumber, Aligned, HoldsFrames, Frame, Slot, DeliversInOrder, Minus, ConsumerAgrees;
  }

  /** A sample written while rendering falls in no slot that holds an undelivered frame. */
  lemma WriteMissesFrames(song: Song, s: State, i: nat, v: int)
    requires Invariant(song, s) && s.producer.Rendering? && i < 2 * BLOCK
    ensures 2 * Slot(s.producer.write) + i < 2 * CAPACITY
    ensures HoldsFrames(song, s.pcm[2 * Slot(s.producer.write) + i := v], s.consumed, s.produced)
  {
    SlotOfSequence(s.produced);
    BlockIsContiguous(s.produced, i / 2);
    var at := 2 * Slot(s.producer.write) + i;
    assert at / 2 == Slot(s.produced + i / 2);
    var after := s.pcm[at := v];
    forall k: nat | s.consumed <= k < s.produced ensures Holds(after, Slot(k), Frame(song, k)) {
      SlotsDiffer(k, s.produced + i / 2);
      assert Holds(s.pcm, Slot(k), Frame(song, k));
    }
  }

  lemma SampleIsWritten(song: Song, s: State, i: nat, v: int)
    requires Invariant(song, s)
    ensures Invariant(song, Step(s, Write(i, v)))
  {
    if s.producer.Rendering? && i < 2 * BLOCK {
      WriteMissesFrames(song, s, i, v);
      hide Wrap, SampleNumber, Aligned, HoldsFrames, Frame, Slot, DeliversInOrder, Minus;
    }
  }

  lemma RenderingReturns(song: Song, s: State, ok: bool)
    requires Invariant(song, s) && Allowed(song, s, RenderReturns(ok))
    ensures Invariant(song, Step(s, RenderReturns(ok)))
  {
    if s.producer.Rendering? && ok { BlockIsRendered(song, s); }
    hide Wrap, SampleNumber, Aligned, HoldsFrames, Frame, Slot, DeliversInOrder, Minus;
  }

  lemma BlockIsRendered(song: Song, s: State)
    requires CountsAgree(s) && s.producer.Rendering? && s.producer.write == Wrap(s.produced)
    requires Allowed(song, s, RenderReturns(true))
    ensures HoldsFrames(song, s.pcm, s.produced, s.produced + BLOCK)
  {
    SlotOfSequence(s.produced);
    forall k: nat | s.produced <= k < s.produced + BLOCK ensures Holds(s.pcm, Slot(k), Frame(song, k)) {
      var i := k - s.produced;
      assert Rendered(song, s.pcm, Slot(s.producer.write), s.nextSample, i);
      hide Holds, Slot;
      BlockIsContiguous(s.produced, i);
      SampleMoves(s.produced, i);
    }
  }

  lemma ConsumerMoves(song: Song, s: State)
    requires Invariant(song, s)
    ensures Invariant(song, ConsumerStep(s))
  {
    if s.consumer.TakeLeft? || s.consumer.TakeRight? {
      ConsumerTakes(song, s);
    } else if s.consumer.Release? {
      ConsumerReleases(song, s);
    } else {
      ConsumerLoads(song, s);
    }
  }

  lemma ConsumerLoads(song: Song, s: State)
    requires Invariant(song, s) && !s.consumer.TakeLeft? && !s.consumer.TakeRight? && !s.consumer.Release?
    ensures Invariant(song, ConsumerStep(s))
  {
    SameCounts(s.produced, s.consumed);
    hide Wrap, SampleNumber, Aligned, HoldsFrames, Frame, Slot, DeliversInOrder, Minus, Loaded, HasRoom;
    var t := ConsumerStep(s);
    assert ProducerAgrees(song, t) by { ProducerUnmoved(song, s, t); }
    hide ProducerAgrees;
    assert Prebuffers(t);
    hide Prebuffers;
  }

  lemma ProducerUnmoved(song: Song, s: State, t: State)
    requires ProducerAgrees(song, s)
    requires t.producer == s.producer && t.produced == s.produced && s.consumed <= t.consumed && t.pcm == s.pcm
    requires t.writeSequence == s.writeSequence
    ensures ProducerAgrees(song, t)
  {
    hide Wrap, Minus, HoldsFrames;
  }

  lemma ConsumerTakes(song: Song, s: State)
    requires Invariant(song, s) && (s.consumer.TakeLeft? || s.consumer.TakeRight?)
    ensures Invariant(song, ConsumerStep(s))
  {
    SlotOfSequence(s.consumed);
    assert Holds(s.pcm, Slot(s.consumed), Frame(song, s.consumed));
    hide Wrap, SampleNumber, Aligned, HoldsFrames, Frame, Slot, DeliversInOrder, Minus;
  }

  lemma ConsumerReleases(song: Song, s: State)
    requires Invariant(song, s) && s.consumer.Release?
    ensures Invariant(song, ConsumerStep(s))
  {
    SequenceMoves(s.consumed, 1);
    assert HoldsFrames(song, s.pcm, s.consumed + 1, s.produced);
    assert DeliversInOrder(song, ConsumerStep(s).delivered);
    hide Wrap, SampleNumber, Aligned, Frame, Slot, Minus, HoldsFrames, DeliversInOrder;
  }

  lemma StepPreserves(song: Song, s: State, a: Action)
    requires Invariant(song, s) && Allowed(song, s, a)
    ensures Invariant(song, Step(s, a))
  {
    hide HoldsFrames, DeliversInOrder, Wrap, Minus, Loaded, HasRoom, Frame, Slot;
    match a {
      case Produce =>
        if s.producer.Publish? { ProducerPublishes(song, s); }
        else if s.producer.Advance? { ProducerAdvances(song, s); }
        else if s.producer.LoadRead? || s.producer.LoadWrite? { ProducerLoads(song, s); }
        else if s.producer.Decide? { ProducerDecides(song, s); }
        else if !s.producer.Rendering? { ProducerSignals(song, s); }
      case Write(i, v) => SampleIsWritten(song, s, i, v);
      case RenderReturns(ok) => RenderingReturns(song, s, ok);
      case Consume => ConsumerMoves(song, s);
      case RequestStop =>
        assert ProducerAgrees(song, Step(s, a)) by { ProducerUnmoved(song, s, Step(s, a)); }
        hide ProducerAgrees;
        hide Wrap, SampleNumber, Aligned, HoldsFrames, Frame, Slot, DeliversInOrder, Minus;
    }
  }

  lemma {:induction false} RunIsSafe(song: Song, actions: seq<Action>)
    requires Possible(song, actions)
    ensures Invariant(song, Run(actions))
    decreases |actions|
  {
    hide Invariant, Step, Allowed;
    if actions == [] {
      InitialHolds(song);
    } else {
      var n := |actions| - 1;
      forall k | 0 <= k < n ensures Allowed(song, Run(actions[..n][..k]), actions[..n][k]) {
        assert actions[..n][..k] == actions[..k];
        assert Allowed(song, Run(actions[..k]), actions[k]);
      }
      RunIsSafe(song, actions[..n]);
      StepPreserves(song, Run(actions[..n]), actions[n]);
    }
  }

  // ---------------------------------------------------------------- theorems

  /** The slots of the block being rendered. */
  predicate InBlock(s: State, slot: nat)
    requires s.producer.Rendering?
  {
    Slot(s.producer.write) <= slot < Slot(s.producer.write) + BLOCK
  }

  lemma BlockMissesFrame(s: State, k: nat)
    requires s.producer.Rendering? && s.producer.write == Wrap(s.produced) && Aligned(s.produced)
    requires s.consumed <= k < s.produced && s.produced + BLOCK <= s.consumed + CAPACITY
    ensures !InBlock(s, Slot(k))
  {
    SlotOfSequence(s.produced);
    var i := Slot(k) - Slot(s.producer.write);
    if 0 <= i < BLOCK {
      BlockIsContiguous(s.produced, i);
      SlotsDiffer(k, s.produced + i);
    }
  }

  lemma BlockIsClear(song: Song, s: State)
    requires Invariant(song, s) && s.producer.Rendering?
    ensures Slot(s.producer.write) + BLOCK <= CAPACITY
    ensures forall k: nat :: s.consumed <= k < s.produced ==> !InBlock(s, Slot(k))
    ensures s.consumer.TakeLeft? || s.consumer.TakeRight? ==> !InBlock(s, Slot(s.consumer.read))
  {
    SlotOfSequence(s.produced);
    BlockIsContiguous(s.produced, 0);
    SlotOfSequence(s.consumed);
    hide Wrap, SampleNumber, Aligned, HoldsFrames, Frame, DeliversInOrder, Minus, Slot;
    forall k: nat | s.consumed <= k < s.produced ensures !InBlock(s, Slot(k)) { BlockMissesFrame(s, k); }
  }

  /** In every interleaving of any length: the ring never overflows, so the producer's overflow branch is dead; a
      block being rendered lies in one piece inside the ring and touches no slot holding an undelivered frame, nor
      the one the consumer is about to read. */
  lemma RingIsRespected(song: Song, actions: seq<Action>)
    requires Possible(song, actions)
    ensures var s := Run(actions);
            && s.consumed <= s.produced <= s.consumed + CAPACITY
            && Minus(s.writeSequence, s.readSequence) == s.produced - s.consumed
            && (s.producer.Decide? ==> Minus(s.producer.write, s.producer.read) <= CAPACITY)
            && (s.producer.Rendering? ==>
                  && Slot(s.producer.write) + BLOCK <= CAPACITY
                  && (forall k: nat :: s.consumed <= k < s.produced ==> !InBlock(s, Slot(k)))
                  && (s.consumer.TakeLeft? || s.consumer.TakeRight? ==> !InBlock(s, Slot(s.consumer.read))))
  {
    hide Wrap, SampleNumber, Aligned, Run, Possible, Slot, HoldsFrames, DeliversInOrder, Frame;
    RunIsSafe(song, actions);
    var s := Run(actions);
    MinusOfCounts(s.produced, s.consumed);
    hide Minus;
    if s.producer.Rendering? { BlockIsClear(song, s); }
  }

  /** The k-th successful read returns the k-th rendered frame, whatever the interleaving and however often the
      32-bit counters wrapped. */
  lemma ReadsPlayTheSong(song: Song, actions: seq<Action>, k: nat)
    requires Possible(song, actions) && k < |Run(actions).delivered|
    ensures Run(actions).delivered[k] == song(SampleNumber(k))
    ensures |Run(actions).delivered| == Run(actions).consumed
  {
    hide Wrap, SampleNumber, Aligned, Run, Possible, Slot, HoldsFrames;
    RunIsSafe(song, actions);
  }

  predicate Full(s: State) { s.produced == s.consumed + CAPACITY }

  lemma FillsByPublishing(s: State, a: Action)
    requires |s.pcm| == 2 * CAPACITY && !s.wasFull && Step(s, a).wasFull
    ensures Full(Step(s, a))
  {
    hide Slot, Minus, Wrap, SampleNumber, Decided;
  }

  lemma {:induction false} WasFullOnce(actions: seq<Action>) returns (n: nat)
    requires Run(actions).wasFull
    ensures n <= |actions| && Full(Run(actions[..n]))
    decreases |actions|
  {
    hide Step, Full;
    var last := |actions| - 1;
    if Run(actions[..last]).wasFull {
      n := WasFullOnce(actions[..last]);
      assert actions[..last][..n] == actions[..n];
    } else {
      n := |actions|;
      assert actions[..n] == actions;
      FillsByPublishing(Run(actions[..last]), actions[last]);
    }
  }

  /** No read succeeds before the ring was once completely full. */
  lemma NothingBeforePrebuffering(song: Song, actions: seq<Action>)
    requires Possible(song, actions) && Run(actions).delivered != []
    ensures exists n :: 0 <= n <= |actions| && Full(Run(actions[..n]))
  {
    hide Wrap, SampleNumber, Aligned, Run, Possible, HoldsFrames, DeliversInOrder;
    RunIsSafe(song, actions);
    var n := WasFullOnce(actions);
  }

  /** A read counts an underrun exactly when no rendered frame is waiting. */
  lemma UnderrunMeansEmpty(song: Song, actions: seq<Action>)
    requires Possible(song, actions) && Run(actions).consumer.ConsumerLoadWrite?
    ensures var s := Run(actions); ConsumerStep(s).consumer.Idle? <==> s.produced == s.consumed
  {
    hide Wrap, SampleNumber, Aligned, Run, Possible, Slot, HoldsFrames, DeliversInOrder, Frame;
    RunIsSafe(song, actions);
    SameCounts(Run(actions).produced, Run(actions).consumed);
  }

  // ------------------------------------------------- the stream as an object

  /** The shared memory of the two threads; each method is one atomic step of one of them. */
  class Stream {
    var readSequence: nat
    var writeSequence: nat
    var ready: bool
    var failed: bool
    var stopRequested: bool
    var underruns: nat
    var nextSample: nat
    const pcm: array<int>
    var producer: Producer
    var consumer: Consumer
    ghost var produced: nat
    ghost var consumed: nat
    ghost var delivered: seq<(int, int)>
    ghost var wasFull: bool

    ghost function Abs(): State
      reads this, pcm
    {
      State(readSequence, writeSequence, ready, failed, stopRequested, underruns, nextSample, pcm[..], producer,
            consumer, produced, consumed, delivered, wasFull)
    }

    ghost predicate Valid() { pcm.Length == 2 * CAPACITY }

    constructor ()
      ensures Valid() && fresh(pcm) && Abs() == Initial()
    {
      readSequence, writeSequence, underruns, nextSample := 0, 0, 0, 0;
      ready, failed, stopRequested := false, false, false;
      pcm := new int[2 * CAPACITY](_ => 0);
      producer, consumer := Top, Idle;
      produced, consumed, delivered, wasFull := 0, 0, [], false;
      new;
      assert pcm[..] == Initial().pcm;
    }

    /** The producer thread's next load, store or decision; while the renderer runs it takes none. */
    method Produce()
      requires Valid()
      modifies this
      ensures Abs() == Step(old(Abs()), Action.Produce)
    {
      hide Decided, Minus, Wrap, SampleNumber;
      match producer {
        case Top => producer := if stopRequested then Stopped else LoadRead;
        case LoadRead => producer := LoadWrite(readSequence);
        case LoadWrite(read) => producer := Decide(read, writeSequence);
        case Decide(read, write) => Branch(read, write);
        case ReadyThenWait => ready, producer := true, Waiting;
        case Waiting => producer := Top;
        case Rendering(_, _) =>
        case Advance(read, write) => nextSample, producer := SampleNumber(nextSample + BLOCK), Publish(read, write);
        case Publish(read, write) => PublishBlock(read, write);
        case AfterPublish(full) => ready, producer := ready || full, Top;
        case SetFailed => failed, producer := true, SetReady;
        case SetReady => ready, producer := true, Stopped;
        case Stopped =>
      }
    }

    method PublishBlock(read: nat, write: nat)
      requires Valid() && producer == Publish(read, write)
      modifies this`writeSequence, this`producer, this`produced, this`wasFull
      ensures Abs() == ProducerStep(old(Abs()))
    {
      writeSequence := Wrap(write + BLOCK);
      producer := AfterPublish(Minus(write, read) + BLOCK == CAPACITY);
      produced := produced + BLOCK;
      wasFull := wasFull || produced == consumed + CAPACITY;
    }

    method Branch(read: nat, write: nat)
      modifies this`producer
      ensures producer == Decided(read, write)
    {
      var used := Minus(write, read);
      if used > CAPACITY {
        producer := SetFailed;
      } else if CAPACITY - used < BLOCK {
        producer := if used == CAPACITY then ReadyThenWait else Waiting;
      } else {
        producer := Rendering(read, write);
      }
    }

    /** The renderer writes one sample of the block it was given. */
    method Write(sample: nat, value: int)
      requires Valid() && producer.Rendering? && sample < 2 * BLOCK && Slot(producer.write) + BLOCK <= CAPACITY
      modifies pcm
      ensures Abs() == Step(old(Abs()), Action.Write(sample, value))
    {
      pcm[2 * Slot(producer.write) + sample] := value;
    }

    method RenderReturns(ok: bool)
      requires Valid() && producer.Rendering?
      modifies this`producer
      ensures Abs() == Step(old(Abs()), Action.RenderReturns(ok))
    {
      producer := if ok then Advance(producer.read, producer.write) else SetFailed;
    }

    /** The consumer's next load, sample read or store. */
    method Consume()
      requires Valid()
      modifies this
      ensures Abs() == Step(old(Abs()), Action.Consume)
    {
      match consumer {
        case Idle => consumer := if ready then CheckFailed else Idle;
        case CheckFailed => consumer := if failed then Idle else ConsumerLoadRead;
        case ConsumerLoadRead => consumer := ConsumerLoadWrite(readSequence);
        case ConsumerLoadWrite(read) =>
          if read == writeSequence {
            underruns, consumer := Wrap(underruns + 1), Idle;
          } else {
            consumer := TakeLeft(read);
          }
        case TakeLeft(read) => consumer := TakeRight(read, pcm[2 * Slot(read)]);
        case TakeRight(read, left) => consumer := Release(read, left, pcm[2 * Slot(read) + 1]);
        case Release(read, left, right) =>
          readSequence, consumer := Wrap(read + 1), Idle;
          consumed, delivered := consumed + 1, delivered + [(left, right)];
      }
    }

    method RequestStop()
      requires Valid()
      modifies this`stopRequested
      ensures Abs() == Step(old(Abs()), Action.RequestStop)
    {
      stopRequested := true;
    }
  }
}
