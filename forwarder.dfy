/**
 * The forwarding worker of one direction as an object: its timing fields
 * are fixed at construction, its frame accumulator is updated in place by
 * each pass of the loop, and what it emits to the log sink and writes to
 * the destination port are kept as ghost sequences. Every method is proved
 * against the matching function of the Accumulator module.
 */
module Forwarder {
  import opened Wrappers
  import opened HexFormat
  import opened FrameLog
  import Timing
  import Accumulator

  class SerialForwarderThread {
    /** "AtoB" for the A-to-B worker; any other name is the B-to-A side. */
    const direction: string
    const baud: int
    const bitsPerChar: int
    const charTimeNs: int
    const flushGapNs: int
    const pollIntervalS: real

    var running: bool
    var msgBuffer: seq<byte>
    var msgStartNs: int
    var lastRxNs: int

    /** Everything emitted to the log sink, in order. */
    ghost var log: seq<LogEvent>
    /** Everything handed to the destination port's write, in order. */
    ghost var written: seq<byte>
    /** Everything the destination port accepted, in order. */
    ghost var destination: seq<byte>

    ghost function State(): Accumulator.Acc
      reads this
    {
      Accumulator.Acc(msgBuffer, msgStartNs, lastRxNs)
    }

    ghost predicate Valid()
      reads this
    {
      Accumulator.Valid(State())
    }

    /**
     * The worker's state is that of effect e, and its log, writes and
     * destination are log0, written0 and destination0 extended by e's.
     */
    ghost predicate Reflects(e: Accumulator.Effect, log0: seq<LogEvent>, written0: seq<byte>, destination0: seq<byte>)
      reads this
    {
      State() == e.acc && log == log0 + RenderAll(direction, e.events) &&
      written == written0 + e.sent && destination == destination0 + e.delivered
    }

    constructor (direction: string, baud: int, gapChars: int, bitsPerChar: int)
      ensures Valid() && !running
      ensures State() == Accumulator.Idle && log == [] && written == [] && destination == []
      ensures this.direction == direction
      ensures var p := Timing.Derive(baud, bitsPerChar, gapChars);
              this.baud == p.baud && this.bitsPerChar == p.bitsPerChar &&
              charTimeNs == p.charTimeNs && flushGapNs == p.flushGapNs &&
              pollIntervalS == Timing.PollIntervalSeconds(p)
    {
      this.direction := direction;
      running := false;
      var p := Timing.Derive(baud, bitsPerChar, gapChars);
      this.baud := p.baud;
      this.bitsPerChar := p.bitsPerChar;
      charTimeNs := p.charTimeNs;
      flushGapNs := p.flushGapNs;
      pollIntervalS := Timing.PollIntervalSeconds(p);
      msgBuffer := [];
      msgStartNs := 0;
      lastRxNs := 0;
      log := [];
      written := [];
      destination := [];
    }

    /** Emits one event to the log sink. */
    method Emit(e: Event)
      modifies this`log
      ensures log == old(log) + [Render(direction, e)]
    {
      log := log + [Render(direction, e)];
    }

    /**
     * Appends received bytes and forwards them; writeError is the failure
     * the destination's write raised, if it raised one.
     */
    method AppendRx(data: seq<byte>, nowNs: int, writeError: Option<string>)
      requires Valid()
      modifies this`msgBuffer, this`msgStartNs, this`lastRxNs, this`log, this`written, this`destination
      ensures Valid()
      ensures Reflects(Accumulator.AppendRx(old(State()), data, nowNs, writeError), old(log), old(written), old(destination))
    {
      if data == [] {
        return;
      }
      if msgBuffer == [] {
        msgStartNs := nowNs;
      }
      msgBuffer := msgBuffer + data;
      lastRxNs := nowNs;
      written := written + data;
      match writeError
      case None =>
        destination := destination + data;
      case Some(reason) =>
        Emit(WriteFailed(reason));
    }

    /** Emits the buffered frame and resets the accumulator once the idle gap has passed. */
    method FlushFrameIfDue(nowNs: int, stamp: string)
      requires Valid()
      modifies this`msgBuffer, this`msgStartNs, this`lastRxNs, this`log
      ensures Valid() && written == old(written) && destination == old(destination)
      ensures Reflects(Accumulator.FlushIfDue(old(State()), nowNs, flushGapNs, stamp), old(log), old(written), old(destination))
    {
      if msgBuffer == [] {
        return;
      }
      if Timing.FlushDue(nowNs, lastRxNs, flushGapNs) {
        Emit(FrameFlushed(stamp, msgBuffer));
        msgBuffer := [];
        msgStartNs := 0;
        lastRxNs := 0;
      }
    }

    /** One pass of the loop, on what the pass observed. */
    method RunStep(p: Accumulator.Poll)
      requires Valid()
      modifies this`msgBuffer, this`msgStartNs, this`lastRxNs, this`log, this`written, this`destination
      ensures Valid()
      ensures Reflects(Accumulator.Step(old(State()), flushGapNs, p), old(log), old(written), old(destination))
    {
      match p
      case Quiet(nowNs, stamp) =>
        FlushFrameIfDue(nowNs, stamp);
      case Read(data, nowNs, writeError) =>
        if data != [] {
          AppendRx(data, nowNs, writeError);
        }
      case Fault(reason) =>
        Emit(ForwardingFailed(reason));
    }

    method Stop()
      modifies this`running
      ensures !running
    {
      running := false;
    }

    /**
     * The worker's run: the passes it makes until stop() is observed, then
     * the final flush at stopNowNs (the clock after the loop) with the
     * timestamp text stopStamp.
     */
    method Run(polls: seq<Accumulator.Poll>, stopNowNs: int, stopStamp: string)
      requires Valid()
      modifies this
      ensures Valid() && !running
      ensures var r := Accumulator.Run(old(State()), flushGapNs, polls);
              Reflects(Accumulator.Then(r, Accumulator.Shutdown(r.acc, flushGapNs, stopNowNs, stopStamp)),
                       old(log), old(written), old(destination))
    {
      running := true;
      ghost var start, log0, written0, destination0 := State(), log, written, destination;
      var i := 0;
      while i < |polls|
        invariant 0 <= i <= |polls|
        invariant Valid()
        invariant Reflects(Accumulator.Run(start, flushGapNs, polls[..i]), log0, written0, destination0)
      {
        ghost var before := Accumulator.Run(start, flushGapNs, polls[..i]);
        ghost var mid := Accumulator.Step(before.acc, flushGapNs, polls[i]);
        ghost var log1, written1, destination1 := log, written, destination;
        RunStep(polls[i]);
        ReflectsThen(before, mid, log0, written0, destination0, log1, written1, destination1);
        Accumulator.RunSnoc(start, flushGapNs, polls[..i], polls[i]);
        assert polls[..i] + [polls[i]] == polls[..i + 1];
        i := i + 1;
      }
      assert polls[..i] == polls;
      Stop();
      ghost var r := Accumulator.Run(start, flushGapNs, polls);
      ghost var log1, written1, destination1 := log, written, destination;
      FlushFrameIfDue(stopNowNs + flushGapNs + 1, stopStamp);
      ReflectsThen(r, Accumulator.Shutdown(r.acc, flushGapNs, stopNowNs, stopStamp),
                   log0, written0, destination0, log1, written1, destination1);
    }

    /** Reflecting x and then y from where x left off is reflecting x followed by y. */
    lemma ReflectsThen(x: Accumulator.Effect, y: Accumulator.Effect,
                       log0: seq<LogEvent>, written0: seq<byte>, destination0: seq<byte>,
                       log1: seq<LogEvent>, written1: seq<byte>, destination1: seq<byte>)
      requires log1 == log0 + RenderAll(direction, x.events)
      requires written1 == written0 + x.sent && destination1 == destination0 + x.delivered
      requires Reflects(y, log1, written1, destination1)
      ensures Reflects(Accumulator.Then(x, y), log0, written0, destination0)
    {
    }
  }
}
