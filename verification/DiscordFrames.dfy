/**
 Frames on the desktop IPC pipe: an opcode and a length in eight little-endian bytes,
 then the payload. The reader takes whatever pieces the pipe delivers, some of them only
 after a read was pending, and reassembles the frames.
 */
module DiscordFrames {
  import opened Common

  const MAX_PAYLOAD := 65536
  const HEADER := 8
  const PUMP_LOOPS := 8

  const FRAME := 1
  const CLOSE := 2
  const PING := 3
  const PONG := 4

  type Bytes = seq<byte>

  datatype Frame = Frame(opcode: nat, payload: Bytes)

  // ---------------------------------------------------------------- encoding

  function Word(n: nat): (w: Bytes)
    requires n < TWO32
    ensures |w| == 4
  {
    [(n % 256) as byte, (n / 256 % 256) as byte, (n / 65536 % 256) as byte, (n / 16777216) as byte]
  }

  function WordValue(w: Bytes): (n: nat)
    requires |w| == 4
    ensures n < TWO32
  {
    w[0] as nat + 256 * w[1] as nat + 65536 * w[2] as nat + 16777216 * w[3] as nat
  }

  lemma WordRoundTrip(n: nat)
    requires n < TWO32
    ensures WordValue(Word(n)) == n
  {
    var q := n / 256;
    var p := q / 256;
    var t := p / 256;
    assert n == 65536 * p + (256 * (q % 256) + n % 256);
    assert n / 65536 == p;
    assert n == 16777216 * t + (65536 * (p % 256) + 256 * (q % 256) + n % 256);
    assert n / 16777216 == t < 256;
  }

  lemma ValueRoundTrip(w: Bytes)
    requires |w| == 4
    ensures Word(WordValue(w)) == w
  {
    var (a, b, c, d) := (w[0] as nat, w[1] as nat, w[2] as nat, w[3] as nat);
    var n := a + 256 * b + 65536 * c + 16777216 * d;
    assert n / 16777216 == d && n / 65536 == c + 256 * d && n / 256 == b + 256 * c + 65536 * d;
  }

  predicate Encodable(f: Frame) { f.opcode < TWO32 && |f.payload| <= MAX_PAYLOAD }

  function HeaderOf(f: Frame): (h: Bytes)
    requires Encodable(f)
    ensures |h| == HEADER
  {
    Word(f.opcode) + Word(|f.payload|)
  }

  function Encode(f: Frame): (bytes: Bytes)
    requires Encodable(f)
    ensures |bytes| == HEADER + |f.payload|
  {
    HeaderOf(f) + f.payload
  }

  predicate AllEncodable(frames: seq<Frame>) { forall i :: 0 <= i < |frames| ==> Encodable(frames[i]) }

  /** What goes over the pipe for a sequence of frames. */
  function Wire(frames: seq<Frame>): Bytes
    requires AllEncodable(frames)
  {
    if frames == [] then [] else Encode(frames[0]) + Wire(frames[1..])
  }

  lemma {:induction false} WireAppends(frames: seq<Frame>, f: Frame)
    requires AllEncodable(frames) && Encodable(f)
    ensures Wire(frames + [f]) == Wire(frames) + Encode(f)
  {
    if frames == [] {
      assert [f][1..] == [];
    } else {
      assert (frames + [f])[1..] == frames[1..] + [f];
      WireAppends(frames[1..], f);
      assert Encode(frames[0]) + (Wire(frames[1..]) + Encode(f)) == Encode(frames[0]) + Wire(frames[1..]) + Encode(f);
    }
  }

  /** Writes a frame into a buffer, if the payload is within the limit and the buffer large enough. */
  method EncodeFrame(opcode: nat, payload: Bytes, out: array<byte>) returns (ok: bool, length: nat)
    requires opcode < TWO32
    modifies out
    ensures ok == (|payload| <= MAX_PAYLOAD && out.Length >= HEADER + |payload|)
    ensures ok ==> length == HEADER + |payload| && out[..length] == Encode(Frame(opcode, payload))
    ensures !ok ==> out[..] == old(out[..])
  {
    if |payload| > MAX_PAYLOAD || out.Length < HEADER + |payload| { return false, 0; }
    var header := HeaderOf(Frame(opcode, payload));
    hide HeaderOf;
    for i := 0 to HEADER
      invariant out[..i] == header[..i]
    {
      out[i] := header[i];
      assert header[..i + 1] == header[..i] + [header[i]];
    }
    for i := 0 to |payload|
      invariant out[..HEADER + i] == header + payload[..i]
    {
      out[HEADER + i] := payload[i];
      assert payload[..i + 1] == payload[..i] + [payload[i]];
    }
    assert payload[..|payload|] == payload;
    ok, length := true, HEADER + |payload|;
  }

  // ------------------------------------------------------------------ reader

  /** Whether a payload announces that the session is ready; the text search is not modelled. */
  type ReadyTest = Bytes -> bool

  /** The reader's buffers as far as they are filled, its flags, the PONG waiting to be written, the frames processed
      and everything received so far. */
  datatype Reader = Reader(
    header: Bytes, payload: Bytes, payloadLength: nat, readingPayload: bool, active: bool, ready: bool, pong: Bytes,
    processed: seq<Frame>, received: Bytes)

  function Connected(): Reader { Reader([], [], 0, false, false, false, [], [], []) }

  /** How much the next read may deliver. */
  function Remaining(r: Reader): int {
    if r.readingPayload then r.payloadLength - |r.payload| else HEADER - |r.header|
  }

  /** A read is never answered with more than was asked for. */
  function Clip(r: Reader, bytes: Bytes): Bytes {
    if Remaining(r) < 0 then [] else if |bytes| <= Remaining(r) then bytes else bytes[..Remaining(r)]
  }

  function Received(r: Reader, bytes: Bytes): Reader {
    var chunk := Clip(r, bytes);
    if r.readingPayload then r.(payload := r.payload + chunk, received := r.received + chunk)
    else r.(header := r.header + chunk, received := r.received + chunk)
  }

  /** What a frame does; false closes the connection. */
  function Process(r: Reader, f: Frame, isReady: ReadyTest): (bool, Reader) {
    if f.opcode == CLOSE then (false, r)
    else if f.opcode == PING then
      if Encodable(Frame(PONG, f.payload)) then (true, r.(pong := Encode(Frame(PONG, f.payload)))) else (false, r)
    else (true, r.(ready := r.ready || (f.opcode == FRAME && isReady(f.payload))))
  }

  /** A complete header starts the payload; a complete payload is processed. False closes the connection. */
  function BeginPayload(r: Reader): (bool, Reader) {
    if r.readingPayload || |r.header| != HEADER then (true, r)
    else
      var length := WordValue(r.header[4..8]);
      if length > MAX_PAYLOAD then (false, r) else (true, r.(payload := [], payloadLength := length, readingPayload := true))
  }

  function FinishPayload(r: Reader, isReady: ReadyTest): (bool, Reader) {
    if !r.readingPayload || |r.payload| != r.payloadLength || |r.header| != HEADER then (true, r)
    else
      var f := Frame(WordValue(r.header[..4]), r.payload);
      var (ok, next) := Process(r, f, isReady);
      if !ok then (false, next)
      else
        (true, next.(header := [], payload := [], payloadLength := 0, readingPayload := false,
                     processed := next.processed + [f]))
  }

  function Advanced(r: Reader, isReady: ReadyTest): (bool, Reader) {
    var (ok, next) := BeginPayload(r);
    if !ok then (false, next) else FinishPayload(next, isReady)
  }

  /** An answer of the pipe: bytes now, bytes later, or an error. No bytes at all is an error too. */
  datatype Answer = Bytes(bytes: Bytes) | Later | Broken

  datatype Outcome = More | Wait | Failed

  /** One round of the pump: collect a pending read, advance, ask for more. */
  function Round(r: Reader, pending: Answer, immediate: Answer, isReady: ReadyTest): (Outcome, Reader) {
    if r.active && pending.Later? then (Wait, r)
    else if r.active && (pending.Broken? || Clip(r, pending.bytes) == []) then (Failed, r)
    else
      var collected := if r.active then Received(r, pending.bytes).(active := false) else r;
      var (ok, next) := Advanced(collected, isReady);
      if !ok then (Failed, next)
      else if Remaining(next) == 0 then (More, next)
      else
        match immediate
        case Later => (Wait, next.(active := true))
        case Broken => (Failed, next)
        case Bytes(bytes) => if Clip(next, bytes) == [] then (Failed, next) else (More, Received(next, bytes))
  }

  /** The answers a pump gets, round by round. */
  datatype Schedule = Schedule(pending: nat -> Answer, immediate: nat -> Answer)

  /** Up to eight rounds; true means the connection stays open. */
  function Pumped(r: Reader, s: Schedule, loop: nat, isReady: ReadyTest): (bool, Reader)
    requires loop <= PUMP_LOOPS
    decreases PUMP_LOOPS - loop
  {
    if loop == PUMP_LOOPS then (true, r)
    else
      var (outcome, next) := Round(r, s.pending(loop), s.immediate(loop), isReady);
      match outcome
      case Failed => (false, next)
      case Wait => (true, next)
      case More => Pumped(next, s, loop + 1, isReady)
  }

  // --------------------------------------------------------------- invariant

  predicate Valid(r: Reader) {
    && AllEncodable(r.processed)
    && (forall i :: 0 <= i < |r.processed| ==> r.processed[i].opcode != CLOSE)
    && |r.header| <= HEADER
    && (if r.readingPayload then
          |r.header| == HEADER && r.payloadLength == WordValue(r.header[4..8]) <= MAX_PAYLOAD && |r.payload| <= r.payloadLength
        else r.payload == [] && r.payloadLength == 0)
    && r.received == Wire(r.processed) + (r.header + r.payload)
    && (r.active ==> Expecting(r))
  }

  /** Something of the current header or payload is still missing. */
  predicate Expecting(r: Reader) {
    Remaining(r) > 0 && (r.readingPayload || |r.header| < HEADER)
  }

  lemma ConnectedIsValid()
    ensures Valid(Connected())
  {
  }

  lemma ReceivedKeeps(r: Reader, bytes: Bytes)
    requires Valid(r) && !r.active
    ensures Valid(Received(r, bytes)) && r.received <= Received(r, bytes).received
    ensures Received(r, bytes).processed == r.processed
  {
    hide Wire;
    var chunk := Clip(r, bytes);
    assert Wire(r.processed) + (r.header + r.payload) + chunk == Wire(r.processed) + (r.header + (r.payload + chunk));
    if !r.readingPayload { assert r.header + r.payload == r.header && r.header + chunk + r.payload == r.header + chunk; }
  }

  lemma HeaderIsOf(h: Bytes, payload: Bytes)
    requires |h| == HEADER && WordValue(h[4..8]) == |payload| <= MAX_PAYLOAD
    ensures HeaderOf(Frame(WordValue(h[..4]), payload)) == h
  {
    ValueRoundTrip(h[..4]);
    ValueRoundTrip(h[4..8]);
    assert h == h[..4] + h[4..8];
  }

  lemma AdvancedKeeps(r: Reader, isReady: ReadyTest)
    requires Valid(r) && !r.active
    ensures var (ok, next) := Advanced(r, isReady);
            && Valid(next) && next.received == r.received && r.processed <= next.processed && !next.active
            && (ok ==> Expecting(next))
  {
    hide Wire;
    var (begun, middle) := BeginPayload(r);
    assert Valid(middle) by { assert r.payload == [] ==> r.header + r.payload == r.header + []; }
    if begun && middle.readingPayload && |middle.payload| == middle.payloadLength {
      var f := Frame(WordValue(middle.header[..4]), middle.payload);
      HeaderIsOf(middle.header, middle.payload);
      WireAppends(middle.processed, f);
      hide HeaderOf, WordValue;
      assert Wire(middle.processed + [f]) + ([] + []) == Wire(middle.processed) + (middle.header + middle.payload);
    }
  }

  /** Advancing closes the connection exactly at an over-limit header or a complete CLOSE frame. */
  lemma AdvancingStops(r: Reader, isReady: ReadyTest)
    requires Valid(r) && !r.active
    ensures Advanced(r, isReady).0 == !(OverLimit(r.header + r.payload) || ClosesNow(r.header + r.payload))
  {
    hide Wire;
    if r.readingPayload {
      assert (r.header + r.payload)[..4] == r.header[..4] && (r.header + r.payload)[4..8] == r.header[4..8];
    } else {
      assert r.header + r.payload == r.header;
    }
  }

  /** A header that announces more than the limit. */
  predicate OverLimit(bytes: Bytes) { |bytes| >= HEADER && WordValue(bytes[4..8]) > MAX_PAYLOAD }

  /** A whole CLOSE frame and nothing else. */
  predicate ClosesNow(bytes: Bytes) {
    && |bytes| >= HEADER && WordValue(bytes[..4]) == CLOSE
    && WordValue(bytes[4..8]) <= MAX_PAYLOAD && |bytes| == HEADER + WordValue(bytes[4..8])
  }

  lemma RoundKeeps(r: Reader, pending: Answer, immediate: Answer, isReady: ReadyTest)
    requires Valid(r)
    ensures var next := Round(r, pending, immediate, isReady).1;
            Valid(next) && r.received <= next.received && r.processed <= next.processed
    ensures var (outcome, next) := Round(r, pending, immediate, isReady); outcome == Wait ==> next.active
  {
    hide Valid, Advanced, Received, Clip;
    var idle := r.(active := false);
    assert Valid(idle) && (!r.active ==> idle == r) by { Inactive(r); }
    if r.active && pending.Bytes? { ReceivedKeeps(idle, pending.bytes); SameReceived(r, pending.bytes); }
    var collected := if r.active && pending.Bytes? then Received(r, pending.bytes).(active := false) else idle;
    AdvancedKeeps(collected, isReady);
    var next := Advanced(collected, isReady).1;
    if immediate.Bytes? { ReceivedKeeps(next, immediate.bytes); }
    if Expecting(next) { Activated(next); }
  }

  lemma Inactive(r: Reader)
    requires Valid(r)
    ensures Valid(r.(active := false))
  {
    hide Wire;
  }

  lemma Activated(r: Reader)
    requires Valid(r) && Expecting(r)
    ensures Valid(r.(active := true))
  {
    hide Wire;
  }

  lemma SameReceived(r: Reader, bytes: Bytes)
    ensures Received(r.(active := false), bytes) == Received(r, bytes).(active := false)
    ensures Clip(r.(active := false), bytes) == Clip(r, bytes)
  {
  }

  lemma {:induction false} PumpKeeps(r: Reader, s: Schedule, loop: nat, isReady: ReadyTest)
    requires Valid(r) && loop <= PUMP_LOOPS
    ensures var next := Pumped(r, s, loop, isReady).1;
            Valid(next) && r.received <= next.received && r.processed <= next.processed
    decreases PUMP_LOOPS - loop
  {
    hide Valid, Round;
    if loop < PUMP_LOOPS {
      RoundKeeps(r, s.pending(loop), s.immediate(loop), isReady);
      var (outcome, next) := Round(r, s.pending(loop), s.immediate(loop), isReady);
      if outcome == More { PumpKeeps(next, s, loop + 1, isReady); }
    }
  }

  /** A connection: pumps until one fails. */
  function Session(pumps: seq<Schedule>, isReady: ReadyTest): (bool, Reader) {
    if pumps == [] then (true, Connected())
    else
      var (open, r) := Session(pumps[..|pumps| - 1], isReady);
      if !open then (false, r) else Pumped(r, pumps[|pumps| - 1], 0, isReady)
  }

  lemma {:induction false} SessionKeeps(pumps: seq<Schedule>, isReady: ReadyTest)
    ensures Valid(Session(pumps, isReady).1)
    decreases |pumps|
  {
    hide Valid, Pumped;
    if pumps == [] {
      ConnectedIsValid();
    } else {
      SessionKeeps(pumps[..|pumps| - 1], isReady);
      var (open, r) := Session(pumps[..|pumps| - 1], isReady);
      if open { PumpKeeps(r, pumps[|pumps| - 1], 0, isReady); }
    }
  }

  // ----------------------------------------------------- what frames bring about

  /** The answer to the last PING among some frames: a PONG with its payload, or nothing yet. */
  function PongFor(frames: seq<Frame>): Bytes
    requires AllEncodable(frames)
  {
    if frames == [] then []
    else
      var f := frames[|frames| - 1];
      if f.opcode == 3 then Encode(Frame(4, f.payload)) else PongFor(frames[..|frames| - 1])
  }

  predicate Announced(frames: seq<Frame>, isReady: ReadyTest) {
    exists i :: 0 <= i < |frames| && frames[i].opcode == 1 && isReady(frames[i].payload)
  }

  /** Ready is set exactly if a FRAME announced it, and what waits to be written is the PONG for the last PING. */
  predicate EffectsShown(r: Reader, isReady: ReadyTest)
    requires AllEncodable(r.processed)
  {
    r.pong == PongFor(r.processed) && (r.ready <==> Announced(r.processed, isReady))
  }

  lemma EffectsOfOne(frames: seq<Frame>, f: Frame, isReady: ReadyTest)
    requires AllEncodable(frames) && Encodable(f)
    ensures PongFor(frames + [f]) == if f.opcode == 3 then Encode(Frame(4, f.payload)) else PongFor(frames)
    ensures Announced(frames + [f], isReady) <==> Announced(frames, isReady) || (f.opcode == 1 && isReady(f.payload))
  {
    var all := frames + [f];
    assert all[..|frames|] == frames && all[|frames|] == f;
    hide Encode;
    if Announced(frames, isReady) {
      var i :| 0 <= i < |frames| && frames[i].opcode == 1 && isReady(frames[i].payload);
      assert all[i] == frames[i];
    }
  }

  lemma AdvancedShows(r: Reader, isReady: ReadyTest)
    requires Valid(r) && !r.active && EffectsShown(r, isReady)
    ensures Valid(Advanced(r, isReady).1) && EffectsShown(Advanced(r, isReady).1, isReady)
  {
    AdvancedKeeps(r, isReady);
    var (begun, middle) := BeginPayload(r);
    hide Wire, Encode, Announced, PongFor, Valid;
    assert AllEncodable(r.processed) by { ProcessedAreEncodable(r); }
    assert |r.header| <= HEADER by { ProcessedAreEncodable(r); }
    assert middle.processed == r.processed && EffectsShown(middle, isReady);
    if begun && middle.readingPayload && |middle.payload| == middle.payloadLength && |middle.header| == HEADER {
      assert |middle.payload| <= MAX_PAYLOAD by { ProcessedAreEncodable(r); }
      EffectsOfOne(middle.processed, Frame(WordValue(middle.header[..4]), middle.payload), isReady);
    }
  }

  lemma ProcessedAreEncodable(r: Reader)
    requires Valid(r)
    ensures AllEncodable(r.processed) && |r.header| <= HEADER
    ensures r.readingPayload ==> |r.payload| <= MAX_PAYLOAD && r.payloadLength <= MAX_PAYLOAD
    ensures !r.readingPayload ==> r.payload == []
  {
  }

  lemma RoundShows(r: Reader, pending: Answer, immediate: Answer, isReady: ReadyTest)
    requires Valid(r) && EffectsShown(r, isReady)
    ensures var next := Round(r, pending, immediate, isReady).1; Valid(next) && EffectsShown(next, isReady)
  {
    RoundKeeps(r, pending, immediate, isReady);
    hide Valid, Advanced, Received, Clip, EffectsShown;
    var idle := r.(active := false);
    Inactive(r);
    ShownAgain(r, idle, isReady);
    if r.active && pending.Bytes? { ReceivedKeeps(idle, pending.bytes); SameReceived(r, pending.bytes); }
    var collected := if r.active && pending.Bytes? then Received(r, pending.bytes).(active := false) else idle;
    assert !r.active ==> idle == r;
    ReceivingShows(r, collected, pending, isReady);
    AdvancedKeeps(collected, isReady);
    AdvancedShows(collected, isReady);
    var next := Advanced(collected, isReady).1;
    ShownAgain(next, next.(active := true), isReady);
    if immediate.Bytes? { ReceivedShows(next, immediate.bytes, isReady); }
  }

  lemma ShownAgain(r: Reader, t: Reader, isReady: ReadyTest)
    requires AllEncodable(r.processed) ==> EffectsShown(r, isReady)
    requires (t.processed, t.pong, t.ready) == (r.processed, r.pong, r.ready)
    ensures AllEncodable(r.processed) ==> EffectsShown(t, isReady)
  {
  }

  lemma ReceivedShows(r: Reader, bytes: Bytes, isReady: ReadyTest)
    requires AllEncodable(r.processed) && EffectsShown(r, isReady)
    ensures Received(r, bytes).processed == r.processed && EffectsShown(Received(r, bytes), isReady)
  {
    hide Announced, PongFor;
  }

  lemma ReceivingShows(r: Reader, collected: Reader, pending: Answer, isReady: ReadyTest)
    requires AllEncodable(r.processed) && EffectsShown(r, isReady)
    requires collected == if r.active && pending.Bytes? then Received(r, pending.bytes).(active := false) else r.(active := false)
    ensures collected.processed == r.processed && EffectsShown(collected, isReady)
  {
    if r.active && pending.Bytes? { ReceivedShows(r, pending.bytes, isReady); }
    hide Announced, PongFor, Received;
  }

  lemma {:induction false} PumpShows(r: Reader, s: Schedule, loop: nat, isReady: ReadyTest)
    requires Valid(r) && loop <= PUMP_LOOPS && EffectsShown(r, isReady)
    ensures var next := Pumped(r, s, loop, isReady).1; Valid(next) && EffectsShown(next, isReady)
    decreases PUMP_LOOPS - loop
  {
    hide Valid, Round, EffectsShown;
    if loop < PUMP_LOOPS {
      RoundShows(r, s.pending(loop), s.immediate(loop), isReady);
      var (outcome, next) := Round(r, s.pending(loop), s.immediate(loop), isReady);
      if outcome == More { PumpShows(next, s, loop + 1, isReady); }
    }
  }

  /** Over every session: the connection is ready exactly if a processed FRAME announced it, and the answer waiting to be
      written is the PONG, with the same payload, for the last PING processed. */
  lemma {:induction false} FramesTakeEffect(pumps: seq<Schedule>, isReady: ReadyTest)
    ensures AllEncodable(Session(pumps, isReady).1.processed) && EffectsShown(Session(pumps, isReady).1, isReady)
    ensures Valid(Session(pumps, isReady).1)
    decreases |pumps|
  {
    hide Valid, Pumped;
    SessionKeeps(pumps, isReady);
    ProcessedAreEncodable(Session(pumps, isReady).1);
    if pumps != [] {
      FramesTakeEffect(pumps[..|pumps| - 1], isReady);
      var (open, r) := Session(pumps[..|pumps| - 1], isReady);
      hide EffectsShown;
      if open { PumpShows(r, pumps[|pumps| - 1], 0, isReady); }
    }
  }

  // ---------------------------------------------------------------- theorems

  lemma SameHeader(f: Frame, g: Frame)
    requires Encodable(f) && Encodable(g) && HeaderOf(f) == HeaderOf(g)
    ensures f.opcode == g.opcode && |f.payload| == |g.payload|
  {
    WordRoundTrip(f.opcode);
    WordRoundTrip(g.opcode);
    WordRoundTrip(|f.payload|);
    WordRoundTrip(|g.payload|);
    assert HeaderOf(f)[..4] == Word(f.opcode) && HeaderOf(g)[..4] == Word(g.opcode);
    assert HeaderOf(f)[4..] == Word(|f.payload|) && HeaderOf(g)[4..] == Word(|g.payload|);
  }

  /** Frames on the wire are uniquely decodable: one sequence's bytes begin the other's only if its frames do. */
  lemma {:induction false} WireIsPrefixFree(frames: seq<Frame>, sent: seq<Frame>, tail: Bytes)
    requires AllEncodable(frames) && AllEncodable(sent) && Wire(frames) <= Wire(sent) + tail
    ensures frames <= sent || (sent < frames && Wire(frames[|sent|..]) <= tail)
    decreases |sent|
  {
    if frames != [] && sent != [] {
      var (f, g, a, b) := (frames[0], sent[0], Wire(frames[1..]), Wire(sent[1..]) + tail);
      assert Encode(f) + a <= Encode(g) + b by { assert Wire(sent) + tail == Encode(g) + b; }
      hide Wire;
      FirstFrame(f, g, a, b);
      WireIsPrefixFree(frames[1..], sent[1..], tail);
      assert frames == [f] + frames[1..] && sent == [g] + sent[1..];
      if sent < frames { assert frames[1..][|sent| - 1..] == frames[|sent|..]; }
      if sent[1..] < frames[1..] { assert frames[1..][|sent| - 1..] == frames[|sent|..]; }
    } else if sent == [] {
      assert frames[0..] == frames && Wire(sent) + tail == tail;
    }
  }

  lemma FirstFrame(f: Frame, g: Frame, a: Bytes, b: Bytes)
    requires Encodable(f) && Encodable(g) && Encode(f) + a <= Encode(g) + b
    ensures f == g && a <= b
  {
    var (x, y) := (Encode(f) + a, Encode(g) + b);
    assert x[..HEADER] == HeaderOf(f) && y[..HEADER] == HeaderOf(g) && x[..HEADER] == y[..HEADER];
    SameHeader(f, g);
    var n := HEADER + |f.payload|;
    assert x[HEADER..n] == f.payload && y[HEADER..n] == g.payload && x[HEADER..n] == y[HEADER..n];
    assert x[n..] == a && y[n..] == b && x[n..] <= y[n..];
  }

  /** Whatever pieces the bytes come in, over any number of pumps: the frames processed are a prefix of those sent, even
      if garbage that begins with an over-limit header, or less than a header, follows them. */
  lemma ProcessedIsPrefixOfSent(pumps: seq<Schedule>, isReady: ReadyTest, sent: seq<Frame>, tail: Bytes)
    requires AllEncodable(sent) && Session(pumps, isReady).1.received <= Wire(sent) + tail
    requires |tail| < HEADER || OverLimit(tail)
    ensures Session(pumps, isReady).1.processed <= sent
  {
    SessionKeeps(pumps, isReady);
    var r := Session(pumps, isReady).1;
    hide Session;
    assert Wire(r.processed) <= Wire(sent) + tail;
    WireIsPrefixFree(r.processed, sent, tail);
    if sent < r.processed { ExtraFrame(r.processed[|sent|..], tail); }
  }

  lemma SameLength(a: Bytes, b: Bytes)
    ensures a <= b && |a| >= HEADER ==> |b| >= HEADER && b[4..8] == a[4..8]
  {
  }

  /** No encoded frame begins such garbage. */
  lemma ExtraFrame(frames: seq<Frame>, tail: Bytes)
    requires AllEncodable(frames) && frames != [] && (|tail| < HEADER || OverLimit(tail))
    ensures !(Wire(frames) <= tail)
  {
    var f := frames[0];
    assert Wire(frames)[4..8] == Word(|f.payload|);
    WordRoundTrip(|f.payload|);
    SameLength(Wire(frames), tail);
  }

  /** Once the reader waits for more and has received all that was sent, it has processed all of it. */
  lemma AllSentIsProcessed(pumps: seq<Schedule>, isReady: ReadyTest, sent: seq<Frame>)
    requires AllEncodable(sent) && Session(pumps, isReady).1.active && Session(pumps, isReady).1.received == Wire(sent)
    ensures Session(pumps, isReady).1.processed == sent
  {
    SessionKeeps(pumps, isReady);
    var r := Session(pumps, isReady).1;
    hide Session;
    assert Wire(r.processed) <= Wire(sent) + [];
    WireIsPrefixFree(r.processed, sent, []);
    if sent < r.processed { ExtraFrame(r.processed[|sent|..], []); }
    var n := |r.processed|;
    if n < |sent| { NothingComplete(r, sent); }
  }

  lemma {:induction false} WireSplits(frames: seq<Frame>, n: nat)
    requires AllEncodable(frames) && n <= |frames|
    ensures Wire(frames) == Wire(frames[..n]) + Wire(frames[n..])
  {
    if n == 0 {
      assert frames[0..] == frames;
    } else {
      WireSplits(frames[1..], n - 1);
      assert frames[..n][1..] == frames[1..][..n - 1] && frames[1..][n - 1..] == frames[n..];
      assert frames[..n][0] == frames[0];
    }
  }

  /** A waiting reader does not hold a complete frame. */
  lemma NothingComplete(r: Reader, sent: seq<Frame>)
    requires Valid(r) && r.active && AllEncodable(sent) && r.processed < sent
    ensures r.received != Wire(sent)
  {
    var n := |r.processed|;
    WireSplits(sent, n);
    assert sent[..n] == r.processed;
    var (f, rest) := (sent[n], Wire(sent[n..][1..]));
    assert Wire(sent[n..]) == Encode(f) + rest;
    hide Wire;
    assert Wire(sent) == Wire(r.processed) + (Encode(f) + rest);
    Incomplete(r, f, rest);
    hide Valid, Encode;
    SameStart(Wire(r.processed), r.header + r.payload, Encode(f) + rest);
  }

  lemma SameStart(a: Bytes, b: Bytes, c: Bytes)
    ensures a + b == a + c ==> b == c
  {
    assert (a + b)[|a|..] == b && (a + c)[|a|..] == c;
  }

  lemma Incomplete(r: Reader, f: Frame, rest: Bytes)
    requires Valid(r) && r.active && Encodable(f)
    ensures r.header + r.payload != Encode(f) + rest
  {
    hide Wire;
    var (x, y) := (r.header + r.payload, Encode(f) + rest);
    assert y[..HEADER] == HeaderOf(f);
    assert HeaderOf(f)[4..8] == Word(|f.payload|);
    WordRoundTrip(|f.payload|);
    if r.readingPayload { assert x[..HEADER] == r.header; }
  }

  lemma BeforeMissing(a: seq<Frame>, b: seq<Frame>, n: nat)
    requires a <= b && n < |b| && b[n] !in a
    ensures a <= b[..n]
  {
    assert forall i :: 0 <= i < |a| ==> a[i] == b[i] && a[i] in a;
  }

  /** A CLOSE frame ends the processing: it and everything after it is left alone. */
  lemma NothingAfterClose(pumps: seq<Schedule>, isReady: ReadyTest, sent: seq<Frame>, n: nat)
    requires AllEncodable(sent) && Session(pumps, isReady).1.received <= Wire(sent)
    requires n < |sent| && sent[n].opcode == CLOSE
    ensures Session(pumps, isReady).1.processed <= sent[..n]
  {
    assert Wire(sent) + [] == Wire(sent);
    ProcessedIsPrefixOfSent(pumps, isReady, sent, []);
    SessionKeeps(pumps, isReady);
    var r := Session(pumps, isReady).1;
    hide Session;
    BeforeMissing(r.processed, sent, n);
  }

  // ----------------------------------------------------- the reader as it runs

  class FrameReader {
    const header: array<byte>
    const payload: array<byte>
    const pending: array<byte>
    const isReady: ReadyTest
    var headerUsed: nat
    var payloadUsed: nat
    var payloadLength: nat
    var pendingLength: nat
    var readingPayload: bool
    var active: bool
    var ready: bool
    ghost var processed: seq<Frame>
    ghost var received: Bytes

    ghost predicate InBounds()
      reads this
    {
      && header.Length == HEADER && payload.Length == MAX_PAYLOAD + 1 && pending.Length == HEADER + MAX_PAYLOAD
      && header != payload && header != pending && payload != pending
      && headerUsed <= HEADER && payloadUsed <= payloadLength <= MAX_PAYLOAD && pendingLength <= pending.Length
    }

    ghost function Abs(): Reader
      requires InBounds()
      reads this, header, payload, pending
    {
      Reader(header[..headerUsed], payload[..payloadUsed], payloadLength, readingPayload, active, ready,
             pending[..pendingLength], processed, received)
    }

    constructor (isReady: ReadyTest)
      ensures InBounds() && Abs() == Connected() && fresh(header) && fresh(payload) && fresh(pending)
      ensures this.isReady == isReady
    {
      this.isReady := isReady;
      header, payload := new byte[HEADER](_ => 0), new byte[MAX_PAYLOAD + 1](_ => 0);
      pending := new byte[HEADER + MAX_PAYLOAD](_ => 0);
      headerUsed, payloadUsed, payloadLength, pendingLength := 0, 0, 0, 0;
      readingPayload, active, ready := false, false, false;
      processed, received := [], [];
    }

    /** A read's bytes arrive in the part of the buffer that was offered. */
    method Receive(bytes: Bytes) returns (count: nat)
      requires InBounds()
      modifies this`headerUsed, this`payloadUsed, this`received, header, payload
      ensures InBounds() && Abs() == Received(old(Abs()), bytes) && count == |Clip(old(Abs()), bytes)|
    {
      ghost var before := Abs();
      var remaining := if readingPayload then payloadLength - payloadUsed else HEADER - headerUsed;
      count := if |bytes| <= remaining then |bytes| else remaining;
      assert bytes[..count] == Clip(before, bytes);
      if readingPayload {
        Copy(payload, payloadUsed, bytes[..count]);
        payloadUsed := payloadUsed + count;
      } else {
        Copy(header, headerUsed, bytes[..count]);
        headerUsed := headerUsed + count;
      }
      received := received + bytes[..count];
    }

    /** Acts on a complete frame: CLOSE ends the connection, PING queues a PONG, FRAME may announce readiness. */
    method ProcessFrame(opcode: nat) returns (ok: bool)
      requires InBounds()
      modifies this`ready, this`pendingLength, pending
      ensures InBounds() && (ok, Abs()) == Process(old(Abs()), Frame(opcode, old(payload[..payloadUsed])), isReady)
    {
      hide Encode;
      if opcode == CLOSE { return false; }
      if opcode == PING {
        var length;
        ok, length := EncodeFrame(PONG, payload[..payloadUsed], pending);
        pendingLength := length;
        return;
      }
      if opcode == FRAME && isReady(payload[..payloadUsed]) { ready := true; }
      ok := true;
    }

    method Begin() returns (ok: bool)
      requires InBounds()
      modifies this`payloadUsed, this`payloadLength, this`readingPayload
      ensures InBounds() && (ok, Abs()) == BeginPayload(old(Abs()))
    {
      if readingPayload || headerUsed != HEADER { return true; }
      assert header[..headerUsed][4..8] == header[4..8];
      var length := WordValue(header[4..8]);
      if length > MAX_PAYLOAD { return false; }
      payloadLength, payloadUsed, readingPayload := length, 0, true;
      ok := true;
    }

    method Finish() returns (ok: bool)
      requires InBounds()
      modifies this, pending
      ensures InBounds() && (ok, Abs()) == FinishPayload(old(Abs()), isReady)
    {
      hide Process;
      if !readingPayload || payloadUsed != payloadLength || headerUsed != HEADER { return true; }
      assert header[..headerUsed][..4] == header[..4];
      var opcode := WordValue(header[..4]);
      ghost var f := Frame(opcode, payload[..payloadUsed]);
      ok := ProcessFrame(opcode);
      if !ok { return; }
      headerUsed, payloadLength, payloadUsed, readingPayload := 0, 0, 0, false;
      processed := processed + [f];
    }

    /** One round of the pump. */
    method Turn(pendingAnswer: Answer, immediate: Answer) returns (outcome: Outcome)
      requires InBounds()
      modifies this, header, payload, pending
      ensures InBounds() && (outcome, Abs()) == Round(old(Abs()), pendingAnswer, immediate, isReady)
    {
      hide BeginPayload, FinishPayload, Received, Clip;
      if active {
        if pendingAnswer.Later? { return Wait; }
        if pendingAnswer.Broken? { return Failed; }
        ghost var before := Abs();
        NothingReceived(before, pendingAnswer.bytes);
        if |pendingAnswer.bytes| == 0 || Left() == 0 { return Failed; }
        var _ := Receive(pendingAnswer.bytes);
        active := false;
      }
      var ok := Begin();
      if !ok { return Failed; }
      ok := Finish();
      if !ok { return Failed; }
      if Left() == 0 { return More; }
      if immediate.Later? {
        active := true;
        return Wait;
      }
      if immediate.Broken? { return Failed; }
      NothingReceived(Abs(), immediate.bytes);
      if |immediate.bytes| == 0 { return Failed; }
      var _ := Receive(immediate.bytes);
      outcome := More;
    }

    function Left(): nat
      requires InBounds()
      reads this
    {
      if readingPayload then payloadLength - payloadUsed else HEADER - headerUsed
    }

    /** Up to eight rounds; false closes the connection. */
    method PumpRead(s: Schedule) returns (open: bool)
      requires InBounds()
      modifies this, header, payload, pending
      ensures InBounds() && (open, Abs()) == Pumped(old(Abs()), s, 0, isReady)
    {
      hide Round;
      ghost var start := Abs();
      for loop := 0 to PUMP_LOOPS
        invariant InBounds() && Pumped(start, s, 0, isReady) == Pumped(Abs(), s, loop, isReady)
      {
        var outcome := Turn(s.pending(loop), s.immediate(loop));
        if outcome == Failed { return false; }
        if outcome == Wait { return true; }
      }
      open := true;
    }
  }

  lemma NothingReceived(r: Reader, bytes: Bytes)
    requires Remaining(r) >= 0
    ensures Clip(r, bytes) == [] <==> bytes == [] || Remaining(r) == 0
  {
  }

  method Copy(target: array<byte>, at: nat, bytes: Bytes)
    requires at + |bytes| <= target.Length
    modifies target
    ensures target[..at + |bytes|] == old(target[..at]) + bytes
  {
    for i := 0 to |bytes|
      invariant target[..at + i] == old(target[..at]) + bytes[..i]
    {
      target[at + i] := bytes[i];
      assert bytes[..i + 1] == bytes[..i] + [bytes[i]];
    }
    assert bytes[..|bytes|] == bytes;
  }
}
