/**
 * The framing loop of `read_from_com` (serial_reader.py): bytes are buffered, and
 * the buffer is emitted as one candidate frame when the line has been silent for
 * at least 3.5 character times, a character time being 11 / baud seconds (the
 * 3.5-character silent interval of section 2.5.1.1 of the MODBUS over Serial Line
 * Specification and Implementation Guide V1.02).
 *
 * The loop is modelled as a fold over events. A `Received` event is one pass of the
 * loop in which a byte was waiting; its gap is `time_diff`, the time since the
 * previous byte (or since the loop started). An `Idle` event is one pass in which
 * no byte was waiting; its gap is the time since the last byte. Closing the port
 * ends the event sequence, and the buffer left over is flushed.
 */
module Reassembler {

  /** Line speed, and the clock: gaps are counted in ticks of 1 / ticksPerSecond seconds. */
  datatype Line = Line(baud: nat, ticksPerSecond: nat)

  predicate ValidLine(line: Line)
  {
    line.baud > 0 && line.ticksPerSecond > 0
  }

  /**
   * `time_diff >= timeout_check` with `timeout_check = 3.5 * 11 / baud` seconds:
   * gap / ticksPerSecond >= 38.5 / baud, compared exactly by cross-multiplying.
   */
  predicate EndsFrame(line: Line, gap: nat)
  {
    2 * gap * line.baud >= 77 * line.ticksPerSecond
  }

  /** `time_diff > 1.5 * symbol_time`: gap / ticksPerSecond > 16.5 / baud. */
  predicate ClearsBuffer(line: Line, gap: nat)
  {
    2 * gap * line.baud > 33 * line.ticksPerSecond
  }

  /** The silence threshold as a whole number of ticks, rounded up. */
  function ThresholdTicks(line: Line): nat
    requires ValidLine(line)
  {
    (77 * line.ticksPerSecond + 2 * line.baud - 1) / (2 * line.baud)
  }

  /** A gap ends a frame exactly when it reaches the integer threshold. */
  lemma ThresholdTicksExact(line: Line, gap: nat)
    requires ValidLine(line)
    ensures EndsFrame(line, gap) <==> gap >= ThresholdTicks(line)
  {
    var d := 2 * line.baud;
    var n := 77 * line.ticksPerSecond;
    var t := ThresholdTicks(line);
    var r := (n + d - 1) % d;
    assert n + d - 1 == t * d + r;
    assert 2 * gap * line.baud == gap * d;
    if gap >= t {
      MulMonotone(t, gap, d);
    } else {
      MulMonotone(gap, t - 1, d);
      assert (t - 1) * d == t * d - d;
    }
  }

  lemma MulMonotone(a: nat, b: nat, c: nat)
    requires a <= b
    ensures a * c <= b * c
  {
  }

  datatype Event = Received(gap: nat, b: bv8) | Idle(gap: nat)

  /** The byte buffer and the frames put on the queue so far. */
  datatype Reader = Reader(buffer: seq<bv8>, frames: seq<seq<bv8>>)

  /** All frames, concatenated in order. */
  function Concat(frames: seq<seq<bv8>>): seq<bv8>
    decreases |frames|
  {
    if |frames| == 0 then [] else Concat(frames[..|frames| - 1]) + frames[|frames| - 1]
  }

  /** The bytes an event delivers. */
  function EventBytes(e: Event): seq<bv8>
  {
    if e.Received? then [e.b] else []
  }

  /** All bytes delivered by a sequence of events, in order. */
  function BytesOf(events: seq<Event>): seq<bv8>
    decreases |events|
  {
    if |events| == 0 then [] else EventBytes(events[0]) + BytesOf(events[1..])
  }

  predicate AllNonEmpty(frames: seq<seq<bv8>>)
  {
    forall i :: 0 <= i < |frames| ==> |frames[i]| > 0
  }

  lemma ConcatSnoc(frames: seq<seq<bv8>>, f: seq<bv8>)
    ensures Concat(frames + [f]) == Concat(frames) + f
  {
    assert (frames + [f])[..|frames|] == frames;
  }

  /**
   * One pass of the loop. A byte after a frame-ending gap first emits the buffer
   * (if any); with `enClear`, a byte after a gap between 1.5 and 3.5 character
   * times first discards the buffer; then the byte is appended. An idle pass emits
   * a non-empty buffer once the silence since the last byte ends a frame.
   */
  function Step(line: Line, enClear: bool, r: Reader, e: Event): (r': Reader)
    ensures r'.frames == r.frames || (|r.buffer| > 0 && r'.frames == r.frames + [r.buffer])
    ensures !enClear ==> Concat(r'.frames) + r'.buffer == Concat(r.frames) + r.buffer + EventBytes(e)
  {
    ConcatSnoc(r.frames, r.buffer);
    match e
    case Received(gap, b) =>
      if EndsFrame(line, gap) then
        if |r.buffer| > 0 then Reader([b], r.frames + [r.buffer]) else Reader([b], r.frames)
      else if enClear && ClearsBuffer(line, gap) then
        Reader([b], r.frames)
      else
        Reader(r.buffer + [b], r.frames)
    case Idle(gap) =>
      if |r.buffer| > 0 && EndsFrame(line, gap) then Reader([], r.frames + [r.buffer]) else r
  }

  /** The loop over a sequence of events. */
  function Run(line: Line, enClear: bool, r: Reader, events: seq<Event>): (r': Reader)
    ensures AllNonEmpty(r.frames) ==> AllNonEmpty(r'.frames)
    ensures |r.frames| <= |r'.frames| && r'.frames[..|r.frames|] == r.frames
    ensures !enClear ==> Concat(r'.frames) + r'.buffer == Concat(r.frames) + r.buffer + BytesOf(events)
    decreases |events|
  {
    if |events| == 0 then r
    else
      var next := Step(line, enClear, r, events[0]);
      var r' := Run(line, enClear, next, events[1..]);
      assert r'.frames[..|r.frames|] == next.frames[..|next.frames|][..|r.frames|];
      r'
  }

  /** The `finally` clause: a non-empty buffer is emitted as the last frame. */
  function Flush(r: Reader): (frames: seq<seq<bv8>>)
    ensures AllNonEmpty(r.frames) ==> AllNonEmpty(frames)
    ensures Concat(frames) == Concat(r.frames) + r.buffer
    ensures |r.buffer| > 0 ==> |frames| > 0 && frames[|frames| - 1] == r.buffer
  {
    ConcatSnoc(r.frames, r.buffer);
    if |r.buffer| > 0 then r.frames + [r.buffer] else r.frames
  }

  /** Every frame a capture produces, from an empty buffer to the port closing. */
  function Capture(line: Line, enClear: bool, events: seq<Event>): (frames: seq<seq<bv8>>)
    ensures AllNonEmpty(frames)
    ensures !enClear ==> Concat(frames) == BytesOf(events)
  {
    Flush(Run(line, enClear, Reader([], []), events))
  }

  lemma {:induction false} RunAppend(line: Line, enClear: bool, r: Reader, a: seq<Event>, b: seq<Event>)
    ensures Run(line, enClear, r, a + b) == Run(line, enClear, Run(line, enClear, r, a), b)
    decreases |a|
  {
    if |a| == 0 {
      assert a + b == b;
    } else {
      assert (a + b)[0] == a[0];
      assert (a + b)[1..] == a[1..] + b;
      RunAppend(line, enClear, Step(line, enClear, r, a[0]), a[1..], b);
    }
  }

  lemma RunSingle(line: Line, enClear: bool, r: Reader, e: Event)
    ensures Run(line, enClear, r, [e]) == Step(line, enClear, r, e)
  {
    assert [e][1..] == [];
  }

  /** Bytes that arrive less than 3.5 character times apart (and, with `enClear`, at most 1.5 apart). */
  predicate Quiet(line: Line, enClear: bool, events: seq<Event>)
  {
    forall i :: 0 <= i < |events| ==>
      events[i].Received? && !EndsFrame(line, events[i].gap) &&
      !(enClear && ClearsBuffer(line, events[i].gap))
  }

  /** Closely spaced bytes are only appended to the buffer: no frame boundary is emitted. */
  lemma {:induction false} QuietBytesAccumulate(line: Line, enClear: bool, r: Reader, events: seq<Event>)
    requires Quiet(line, enClear, events)
    ensures Run(line, enClear, r, events) == Reader(r.buffer + BytesOf(events), r.frames)
    decreases |events|
  {
    if |events| > 0 {
      var next := Step(line, enClear, r, events[0]);
      assert next == Reader(r.buffer + [events[0].b], r.frames);
      assert Quiet(line, enClear, events[1..]) by {
        forall i | 0 <= i < |events[1..]| ensures events[1..][i] == events[i + 1] { }
      }
      QuietBytesAccumulate(line, enClear, next, events[1..]);
      assert r.buffer + BytesOf(events) == next.buffer + BytesOf(events[1..]);
    }
  }

  /**
   * N closely spaced bytes followed by a byte after a frame-ending gap yield exactly
   * one frame, holding those N bytes, and leave only the new byte buffered.
   */
  lemma GapEmitsOneFrame(line: Line, enClear: bool, frames: seq<seq<bv8>>, quiet: seq<Event>, gap: nat, b: bv8)
    requires Quiet(line, enClear, quiet) && |quiet| > 0
    requires EndsFrame(line, gap)
    ensures Run(line, enClear, Reader([], frames), quiet + [Received(gap, b)])
         == Reader([b], frames + [BytesOf(quiet)])
  {
    var bytes := BytesOf(quiet);
    assert bytes != [] by { assert bytes == [quiet[0].b] + BytesOf(quiet[1..]); }
    RunAppend(line, enClear, Reader([], frames), quiet, [Received(gap, b)]);
    QuietBytesAccumulate(line, enClear, Reader([], frames), quiet);
    assert Run(line, enClear, Reader([], frames), quiet) == Reader(bytes, frames);
    RunSingle(line, enClear, Reader(bytes, frames), Received(gap, b));
    assert Step(line, enClear, Reader(bytes, frames), Received(gap, b)) == Reader([b], frames + [bytes]);
  }

  /** Silence after closely spaced bytes flushes them as one frame and empties the buffer. */
  lemma IdleFlushEmitsOneFrame(line: Line, enClear: bool, frames: seq<seq<bv8>>, quiet: seq<Event>, gap: nat)
    requires Quiet(line, enClear, quiet) && |quiet| > 0
    requires EndsFrame(line, gap)
    ensures Run(line, enClear, Reader([], frames), quiet + [Idle(gap)])
         == Reader([], frames + [BytesOf(quiet)])
  {
    var bytes := BytesOf(quiet);
    assert bytes != [] by { assert bytes == [quiet[0].b] + BytesOf(quiet[1..]); }
    RunAppend(line, enClear, Reader([], frames), quiet, [Idle(gap)]);
    QuietBytesAccumulate(line, enClear, Reader([], frames), quiet);
    assert Run(line, enClear, Reader([], frames), quiet) == Reader(bytes, frames);
    RunSingle(line, enClear, Reader(bytes, frames), Idle(gap));
    assert Step(line, enClear, Reader(bytes, frames), Idle(gap)) == Reader([], frames + [bytes]);
  }

  /** Silence shorter than 3.5 character times never emits anything. */
  lemma ShortIdleEmitsNothing(line: Line, enClear: bool, r: Reader, gaps: seq<nat>)
    requires forall i :: 0 <= i < |gaps| ==> !EndsFrame(line, gaps[i])
    ensures Run(line, enClear, r, seq(|gaps|, i requires 0 <= i < |gaps| => Idle(gaps[i]))) == r
    decreases |gaps|
  {
    var events := seq(|gaps|, i requires 0 <= i < |gaps| => Idle(gaps[i]));
    if |gaps| > 0 {
      assert events[1..] == seq(|gaps[1..]|, i requires 0 <= i < |gaps[1..]| => Idle(gaps[1..][i]));
      ShortIdleEmitsNothing(line, enClear, r, gaps[1..]);
    }
  }

  /**
   * With `enClear`, a byte after a gap strictly between 1.5 and 3.5 character times
   * throws the buffered bytes away: they never reach a frame, and the new byte
   * starts a fresh buffer.
   */
  lemma ClearGapDiscardsBuffer(line: Line, r: Reader, gap: nat, b: bv8, quiet: seq<Event>)
    requires ClearsBuffer(line, gap) && !EndsFrame(line, gap)
    requires Quiet(line, true, quiet)
    ensures Run(line, true, r, [Received(gap, b)] + quiet) == Reader([b] + BytesOf(quiet), r.frames)
  {
    RunAppend(line, true, r, [Received(gap, b)], quiet);
    RunSingle(line, true, r, Received(gap, b));
    QuietBytesAccumulate(line, true, Reader([b], r.frames), quiet);
  }

  /**
   * `read_from_com`, with the port's bytes and polls given as events. Returns the
   * frames put on the queue, the final flush included.
   */
  method ReadFromCom(line: Line, enClear: bool, events: seq<Event>) returns (frames: seq<seq<bv8>>)
    requires ValidLine(line)
    ensures frames == Capture(line, enClear, events)
    ensures forall i :: 0 <= i < |frames| ==> |frames[i]| > 0
    ensures !enClear ==> Concat(frames) == BytesOf(events)
  {
    var buffer: seq<bv8> := [];
    frames := [];
    var i := 0;
    while i < |events|
      invariant 0 <= i <= |events|
      invariant Run(line, enClear, Reader(buffer, frames), events[i..])
             == Run(line, enClear, Reader([], []), events)
    {
      ghost var before := Reader(buffer, frames);
      assert events[i..][1..] == events[i + 1..];
      match events[i] {
        case Received(gap, b) =>
          if EndsFrame(line, gap) {
            if |buffer| > 0 {
              frames := frames + [buffer];
              buffer := [];
            }
          } else if enClear && ClearsBuffer(line, gap) {
            buffer := [];
          }
          buffer := buffer + [b];
        case Idle(gap) =>
          if |buffer| > 0 && EndsFrame(line, gap) {
            frames := frames + [buffer];
            buffer := [];
          }
      }
      assert Reader(buffer, frames) == Step(line, enClear, before, events[i]);
      i := i + 1;
    }
    assert events[i..] == [];
    if |buffer| > 0 {
      frames := frames + [buffer];
    }
  }
}
