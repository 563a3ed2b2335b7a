/**
 * The frame accumulator of one forwarding worker, as values: the buffer of
 * bytes received since the last flush with the times of its first and last
 * byte, and what one pass of the worker loop does to it. Each operation
 * returns an Effect: the new accumulator, the events emitted to the log
 * sink, the bytes handed to the destination's write and the bytes the
 * destination accepted. Run is the effect of a whole sequence of passes.
 */
module Accumulator {
  import opened Wrappers
  import opened HexFormat
  import opened FrameLog
  import opened Timing

  datatype Acc = Acc(buffer: seq<byte>, startNs: int, lastRxNs: int)

  /** The accumulator of a fresh worker and after every flush. */
  const Idle: Acc := Acc([], 0, 0)

  /** An empty buffer carries no timestamps. */
  predicate Valid(a: Acc)
  {
    a.buffer == [] ==> a.startNs == 0 && a.lastRxNs == 0
  }

  datatype Effect = Effect(acc: Acc, events: seq<Event>, sent: seq<byte>, delivered: seq<byte>)

  /** What one pass of the loop observed. */
  datatype Poll =
      /** No bytes were waiting; the clock read nowNs, and stamp is the wall-clock text a flush would use. */
    | Quiet(nowNs: int, stamp: string)
      /** Bytes were waiting and `data` was read at nowNs; writeError is the failure of forwarding them, if any. */
    | Read(data: seq<byte>, nowNs: int, writeError: Option<string>)
      /** Polling or reading raised `reason`. */
    | Fault(reason: string)

  /** Events, bytes sent and bytes delivered of x followed by those of y, ending in y's accumulator. */
  function Then(x: Effect, y: Effect): (r: Effect)
  {
    Effect(y.acc, x.events + y.events, x.sent + y.sent, x.delivered + y.delivered)
  }

  /**
   * Received bytes: append them to the buffer, stamp the frame start when
   * the buffer was empty and the last-received time always, then forward
   * them. A failed write reports one error event and undoes nothing.
   */
  function AppendRx(a: Acc, data: seq<byte>, nowNs: int, writeError: Option<string>): (r: Effect)
    ensures data == [] ==> r == Effect(a, [], [], [])
    ensures data != [] ==> r.acc.buffer == a.buffer + data && r.acc.lastRxNs == nowNs
    ensures data != [] ==> r.acc.startNs == (if a.buffer == [] then nowNs else a.startNs)
    ensures data != [] ==> r.sent == data
    ensures data != [] ==> (r.delivered == data <==> writeError.None?) && (writeError.Some? ==> r.delivered == [])
    ensures data != [] ==> r.events == (if writeError.Some? then [WriteFailed(writeError.value)] else [])
  {
    if data == [] then Effect(a, [], [], [])
    else
      var start := if a.buffer == [] then nowNs else a.startNs;
      var acc := Acc(a.buffer + data, start, nowNs);
      match writeError
      case None => Effect(acc, [], data, data)
      case Some(reason) => Effect(acc, [WriteFailed(reason)], data, [])
  }

  /**
   * The flush check: when the buffer holds bytes and one and a half flush
   * gaps have passed since the last one, emit the whole buffer as one frame
   * and go back to Idle; otherwise change nothing.
   */
  function FlushIfDue(a: Acc, nowNs: int, flushGapNs: int, stamp: string): (r: Effect)
    ensures r.sent == [] && r.delivered == []
    ensures r.events != [] <==> a.buffer != [] && FlushDue(nowNs, a.lastRxNs, flushGapNs)
    ensures r.events != [] ==> r.events == [FrameFlushed(stamp, a.buffer)] && r.acc == Idle
    ensures r.events == [] ==> r.acc == a
  {
    if a.buffer == [] then Effect(a, [], [], [])
    else if FlushDue(nowNs, a.lastRxNs, flushGapNs) then Effect(Idle, [FrameFlushed(stamp, a.buffer)], [], [])
    else Effect(a, [], [], [])
  }

  /**
   * One pass of the loop: received bytes are appended and forwarded, the
   * flush check runs only when nothing was waiting, and a fault reports
   * itself and keeps the accumulator.
   */
  function Step(a: Acc, flushGapNs: int, p: Poll): (r: Effect)
    ensures |r.events| <= 1
    ensures forall i :: 0 <= i < |r.events| && r.events[i].FrameFlushed? ==> p.Quiet?
    ensures !p.Read? ==> r.sent == [] && r.delivered == []
    ensures p.Fault? ==> r.acc == a && r.events == [ForwardingFailed(p.reason)]
  {
    match p
    case Quiet(nowNs, stamp) => FlushIfDue(a, nowNs, flushGapNs, stamp)
    case Read(data, nowNs, writeError) => AppendRx(a, data, nowNs, writeError)
    case Fault(reason) => Effect(a, [ForwardingFailed(reason)], [], [])
  }

  /** The passes in order, starting from a. */
  function Run(a: Acc, flushGapNs: int, ps: seq<Poll>): (r: Effect)
    ensures |r.events| <= |ps|
    decreases |ps|
  {
    if ps == [] then Effect(a, [], [], [])
    else
      var prev := Run(a, flushGapNs, ps[..|ps| - 1]);
      Then(prev, Step(prev.acc, flushGapNs, ps[|ps| - 1]))
  }

  /**
   * The flush after the loop has stopped: the check is run at the current
   * time plus one flush gap and a nanosecond.
   */
  function Shutdown(a: Acc, flushGapNs: int, nowNs: int, stamp: string): (r: Effect)
    ensures r.sent == [] && r.delivered == []
    ensures r.events == [] || (r.events == [FrameFlushed(stamp, a.buffer)] && a.buffer != [] && r.acc == Idle)
    ensures r.events == [] ==> r.acc == a
  {
    FlushIfDue(a, nowNs + flushGapNs + 1, flushGapNs, stamp)
  }

  // ---------------------------------------------------------------------
  // Byte accounting over a run

  function ReadData(p: Poll): (data: seq<byte>)
  {
    if p.Read? then p.data else []
  }

  /** Every byte read by the passes, in order. */
  function AllRead(ps: seq<Poll>): (data: seq<byte>)
    decreases |ps|
  {
    if ps == [] then [] else AllRead(ps[..|ps| - 1]) + ReadData(ps[|ps| - 1])
  }

  /** The bytes of every frame event, in order. */
  function Payloads(es: seq<Event>): (data: seq<byte>)
    decreases |es|
  {
    if es == [] then []
    else Payloads(es[..|es| - 1]) + (if es[|es| - 1].FrameFlushed? then es[|es| - 1].payload else [])
  }

  lemma {:induction false} PayloadsAppend(xs: seq<Event>, ys: seq<Event>)
    ensures Payloads(xs + ys) == Payloads(xs) + Payloads(ys)
    decreases |ys|
  {
    if ys == [] {
      assert xs + ys == xs;
    } else {
      var ys' := ys[..|ys| - 1];
      assert (xs + ys)[..|xs + ys| - 1] == xs + ys';
      PayloadsAppend(xs, ys');
    }
  }

  /** One pass: frames emitted plus the new buffer hold the old buffer plus the bytes read. */
  lemma StepConserves(a: Acc, flushGapNs: int, p: Poll)
    ensures var r := Step(a, flushGapNs, p);
            Payloads(r.events) + r.acc.buffer == a.buffer + ReadData(p)
  {
    var r := Step(a, flushGapNs, p);
    if |r.events| == 1 {
      assert r.events[..0] == [];
    }
  }

  /**
   * Nothing is dropped, duplicated or reordered on the log side: the
   * payloads of all frames flushed during a run, followed by what is still
   * buffered, are the old buffer followed by every byte read.
   */
  lemma {:induction false} RunConserves(a: Acc, flushGapNs: int, ps: seq<Poll>)
    ensures var r := Run(a, flushGapNs, ps);
            Payloads(r.events) + r.acc.buffer == a.buffer + AllRead(ps)
    decreases |ps|
  {
    if ps != [] {
      var init := ps[..|ps| - 1];
      var last := ps[|ps| - 1];
      var prev := Run(a, flushGapNs, init);
      var s := Step(prev.acc, flushGapNs, last);
      var r := Run(a, flushGapNs, ps);
      assert r.events == prev.events + s.events && r.acc == s.acc;
      assert AllRead(ps) == AllRead(init) + ReadData(last);
      RunConserves(a, flushGapNs, init);
      StepConserves(prev.acc, flushGapNs, last);
      PayloadsAppend(prev.events, s.events);
      Chain(Payloads(prev.events), Payloads(s.events), prev.acc.buffer, s.acc.buffer,
            a.buffer, AllRead(init), ReadData(last));
    }
  }

  /** Joins two conservation facts, one per part of a run. */
  lemma Chain<T>(p1: seq<T>, p2: seq<T>, b1: seq<T>, b2: seq<T>, a0: seq<T>, r1: seq<T>, r2: seq<T>)
    requires p1 + b1 == a0 + r1
    requires p2 + b2 == b1 + r2
    ensures (p1 + p2) + b2 == a0 + (r1 + r2)
  {
    assert (p1 + p2) + b2 == p1 + (b1 + r2);
    assert p1 + (b1 + r2) == (a0 + r1) + r2;
  }

  /** The forwarding side: the writes of a run are exactly the bytes read, in order. */
  lemma {:induction false} RunForwardsEverything(a: Acc, flushGapNs: int, ps: seq<Poll>)
    ensures Run(a, flushGapNs, ps).sent == AllRead(ps)
    decreases |ps|
  {
    if ps != [] {
      RunForwardsEverything(a, flushGapNs, ps[..|ps| - 1]);
    }
  }

  predicate WritesSucceed(ps: seq<Poll>)
  {
    forall i :: 0 <= i < |ps| && ps[i].Read? ==> ps[i].writeError.None?
  }

  /** When no write fails, the destination receives exactly the bytes read, in order. */
  lemma {:induction false} RunDeliversEverything(a: Acc, flushGapNs: int, ps: seq<Poll>)
    requires WritesSucceed(ps)
    ensures Run(a, flushGapNs, ps).delivered == AllRead(ps)
    decreases |ps|
  {
    if ps != [] {
      assert WritesSucceed(ps[..|ps| - 1]);
      RunDeliversEverything(a, flushGapNs, ps[..|ps| - 1]);
    }
  }

  predicate NonEmptyFrames(es: seq<Event>)
  {
    forall i :: 0 <= i < |es| && es[i].FrameFlushed? ==> es[i].payload != []
  }

  /** A run keeps the accumulator valid and never emits an empty frame. */
  lemma {:induction false} RunKeepsValid(a: Acc, flushGapNs: int, ps: seq<Poll>)
    requires Valid(a)
    ensures Valid(Run(a, flushGapNs, ps).acc)
    ensures NonEmptyFrames(Run(a, flushGapNs, ps).events)
    decreases |ps|
  {
    if ps != [] {
      RunKeepsValid(a, flushGapNs, ps[..|ps| - 1]);
    }
  }

  predicate AllReads(ps: seq<Poll>)
  {
    forall i :: 0 <= i < |ps| ==> ps[i].Read?
  }

  /**
   * A burst of reads with no quiet pass between them only accumulates: no
   * frame is emitted and the buffer grows by every byte read.
   */
  lemma {:induction false} BurstAccumulates(a: Acc, flushGapNs: int, ps: seq<Poll>)
    requires AllReads(ps)
    ensures Run(a, flushGapNs, ps).acc.buffer == a.buffer + AllRead(ps)
    ensures NoFrames(Run(a, flushGapNs, ps).events)
    decreases |ps|
  {
    if ps != [] {
      assert AllReads(ps[..|ps| - 1]);
      BurstAccumulates(a, flushGapNs, ps[..|ps| - 1]);
    }
  }

  predicate NoFrames(es: seq<Event>)
  {
    forall i :: 0 <= i < |es| ==> !es[i].FrameFlushed?
  }

  /** The arrival time of the latest non-empty read, or 0 when there is none. */
  function LastRx(ps: seq<Poll>): (t: int)
    decreases |ps|
  {
    if ps == [] then 0
    else if ps[|ps| - 1].Read? && ps[|ps| - 1].data != [] then ps[|ps| - 1].nowNs
    else LastRx(ps[..|ps| - 1])
  }

  /**
   * Every quiet pass that follows some received bytes comes less than one
   * and a half flush gaps after the latest of them.
   */
  predicate QuietsNotDue(ps: seq<Poll>, flushGapNs: int)
  {
    forall i :: 0 <= i < |ps| && ps[i].Quiet? ==>
      AllRead(ps[..i]) == [] || !FlushDue(ps[i].nowNs, LastRx(ps[..i]), flushGapNs)
  }

  /**
   * Frame grouping: from an idle worker, bytes whose quiet passes all fall
   * within one and a half flush gaps of the latest byte are never split:
   * no frame is emitted and the buffer holds every byte read, stamped with
   * the latest arrival.
   */
  lemma {:induction false} BurstStaysOneFrame(flushGapNs: int, ps: seq<Poll>)
    requires QuietsNotDue(ps, flushGapNs)
    ensures var r := Run(Idle, flushGapNs, ps);
            NoFrames(r.events) && r.acc.buffer == AllRead(ps) && r.acc.lastRxNs == LastRx(ps)
    decreases |ps|
  {
    if ps != [] {
      var init := ps[..|ps| - 1];
      var last := ps[|ps| - 1];
      assert forall i :: 0 <= i < |init| ==> init[..i] == ps[..i];
      assert QuietsNotDue(init, flushGapNs);
      BurstStaysOneFrame(flushGapNs, init);
      assert ps[..|ps| - 1] == init;
    }
  }

  /**
   * Such a burst followed by a quiet pass that is due yields exactly one
   * frame, holding every byte of the burst in order, and the worker is
   * idle again.
   */
  lemma BurstThenFlush(flushGapNs: int, ps: seq<Poll>, q: Poll)
    requires QuietsNotDue(ps, flushGapNs) && AllRead(ps) != []
    requires q.Quiet? && FlushDue(q.nowNs, LastRx(ps), flushGapNs)
    ensures var es := Run(Idle, flushGapNs, ps + [q]).events;
            |es| > 0 && es[|es| - 1] == FrameFlushed(q.stamp, AllRead(ps)) && NoFrames(es[..|es| - 1]) &&
            Run(Idle, flushGapNs, ps + [q]).acc == Idle
  {
    BurstStaysOneFrame(flushGapNs, ps);
    RunSnoc(Idle, flushGapNs, ps, q);
    var es := Run(Idle, flushGapNs, ps + [q]).events;
    assert es[..|es| - 1] == Run(Idle, flushGapNs, ps).events;
  }

  /**
   * A write failure changes only what the destination receives and adds
   * one write error event; the accumulator and the bytes sent are as on
   * success.
   */
  lemma WriteFailureIndependent(a: Acc, flushGapNs: int, data: seq<byte>, nowNs: int, reason: string)
    requires data != []
    ensures var ok := Step(a, flushGapNs, Read(data, nowNs, None));
            var failed := Step(a, flushGapNs, Read(data, nowNs, Some(reason)));
            failed.acc == ok.acc && failed.sent == ok.sent &&
            ok.events == [] && failed.events == [WriteFailed(reason)] &&
            ok.delivered == data && failed.delivered == []
  {
  }

  /** After a flush the next bytes start a new frame, holding nothing of the old one. */
  lemma FlushStartsNewFrame(a: Acc, flushGapNs: int, quiet: Poll, next: Poll)
    requires quiet.Quiet? && next.Read? && next.data != []
    requires Step(a, flushGapNs, quiet).events != []
    ensures var r := Step(Step(a, flushGapNs, quiet).acc, flushGapNs, next);
            r.acc == Acc(next.data, next.nowNs, next.nowNs)
  {
  }

  /**
   * The flush at shutdown does not always fire: it emits exactly when the
   * buffer holds bytes and at least half a flush gap, less two
   * nanoseconds, has passed since the last byte.
   */
  lemma ShutdownCondition(a: Acc, flushGapNs: int, nowNs: int, stamp: string)
    ensures var r := Shutdown(a, flushGapNs, nowNs, stamp);
            (r.events != [] <==> a.buffer != [] && 2 * (nowNs - a.lastRxNs) + 2 >= flushGapNs) &&
            (r.events != [] ==> r.events == [FrameFlushed(stamp, a.buffer)] && r.acc == Idle) &&
            (r.events == [] ==> r.acc == a)
  {
  }

  /**
   * The loop sleeps one poll interval after every pass before it sees the
   * stop, so the shutdown clock is at least one poll interval past the last
   * byte. When the flush gap is at most two poll intervals (plus 2 ns), the
   * shutdown flush then always logs the pending frame.
   */
  lemma ShutdownAfterPollSleep(a: Acc, p: Params, nowNs: int, stamp: string)
    requires a.buffer != []
    requires (nowNs - a.lastRxNs) as real >= PollIntervalSeconds(p) * 1_000_000_000.0
    requires p.flushGapNs <= Max(p.charTimeNs, 1_000_000) + 2
    ensures Shutdown(a, p.flushGapNs, nowNs, stamp) == Effect(Idle, [FrameFlushed(stamp, a.buffer)], [], [])
  {
    PollIntervalNs(p);
    assert 2 * (nowNs - a.lastRxNs) >= Max(p.charTimeNs, 1_000_000);
  }

  /** With a one-character gap the shutdown flush always logs the pending frame. */
  lemma ShutdownFlushesWithOneCharGap(baud: int, bitsPerChar: int, gapChars: int, a: Acc, nowNs: int, stamp: string)
    requires gapChars <= 1 && a.buffer != []
    requires (nowNs - a.lastRxNs) as real >= PollIntervalSeconds(Derive(baud, bitsPerChar, gapChars)) * 1_000_000_000.0
    ensures var p := Derive(baud, bitsPerChar, gapChars);
            Shutdown(a, p.flushGapNs, nowNs, stamp) == Effect(Idle, [FrameFlushed(stamp, a.buffer)], [], [])
  {
    ShutdownAfterPollSleep(a, Derive(baud, bitsPerChar, gapChars), nowNs, stamp);
  }

  /**
   * With the default 10 bits per character and 3-character gap, the
   * shutdown flush always logs the pending frame from 38400 baud up.
   */
  lemma ShutdownFlushesFromBaud38400(baud: int, a: Acc, nowNs: int, stamp: string)
    requires baud >= 38400 && a.buffer != []
    requires (nowNs - a.lastRxNs) as real >= PollIntervalSeconds(Derive(baud, 10, 3)) * 1_000_000_000.0
    ensures var p := Derive(baud, 10, 3);
            Shutdown(a, p.flushGapNs, nowNs, stamp) == Effect(Idle, [FrameFlushed(stamp, a.buffer)], [], [])
  {
    var p := Derive(baud, 10, 3);
    MulMonotone(p.charTimeNs, 38400, baud);
    assert p.charTimeNs <= 260_416;
    ShutdownAfterPollSleep(a, p, nowNs, stamp);
  }

  /**
   * At 9600 baud with the default framing the flush gap exceeds two poll
   * intervals: a worker stopped 0.6 ms after its last byte, which is more
   * than one poll interval, keeps that byte unlogged.
   */
  lemma ShutdownCanKeepFrame()
    ensures var p := Derive(9600, 10, 3);
            var t := 1_000_000_000;
            var a := Acc([0x41], t, t);
            var r := Shutdown(a, p.flushGapNs, t + 600_000, "stamp");
            (600_000 as real) >= PollIntervalSeconds(p) * 1_000_000_000.0 &&
            r.events == [] && r.acc.buffer == [0x41]
  {
    Baud9600Example();
  }

  /** Run over one more pass is the old run followed by that pass. */
  lemma RunSnoc(a: Acc, flushGapNs: int, ps: seq<Poll>, p: Poll)
    ensures var prev := Run(a, flushGapNs, ps);
            Run(a, flushGapNs, ps + [p]) == Then(prev, Step(prev.acc, flushGapNs, p))
  {
  }

  /** The three reads of BurstExample only accumulate. */
  lemma BurstExampleReads(t: int, gap: int)
    ensures Run(Idle, gap, [Read([0x41], t, None), Read([0x42], t + 1_000_000, None), Read([0x43], t + 2_000_000, None)])
         == Effect(Acc([0x41, 0x42, 0x43], t, t + 2_000_000), [], [0x41, 0x42, 0x43], [0x41, 0x42, 0x43])
  {
    var p0, p1, p2 := Read([0x41], t, None), Read([0x42], t + 1_000_000, None), Read([0x43], t + 2_000_000, None);
    RunSnoc(Idle, gap, [], p0);
    assert [] + [p0] == [p0];
    RunSnoc(Idle, gap, [p0], p1);
    assert [p0] + [p1] == [p0, p1];
    assert Run(Idle, gap, [p0, p1]) == Effect(Acc([0x41, 0x42], t, t + 1_000_000), [], [0x41, 0x42], [0x41, 0x42]);
    RunSnoc(Idle, gap, [p0, p1], p2);
    assert [p0, p1] + [p2] == [p0, p1, p2];
  }

  /** The quiet passes of BurstExample: the first is too early, the second flushes. */
  lemma BurstExampleRun(gap: int)
    requires gap == 3_124_998
    ensures var t := 1_000_000_000;
            var ps := [Read([0x41], t, None), Read([0x42], t + 1_000_000, None), Read([0x43], t + 2_000_000, None),
                       Quiet(t + 4_000_000, "early"), Quiet(t + 9_000_000, "late")];
            Run(Idle, gap, ps).events == [FrameFlushed("late", [0x41, 0x42, 0x43])] && Run(Idle, gap, ps).acc == Idle
  {
    var t := 1_000_000_000;
    var burst := [Read([0x41], t, None), Read([0x42], t + 1_000_000, None), Read([0x43], t + 2_000_000, None)];
    var p3, p4 := Quiet(t + 4_000_000, "early"), Quiet(t + 9_000_000, "late");
    BurstExampleReads(t, gap);
    var buffered := Acc([0x41, 0x42, 0x43], t, t + 2_000_000);
    assert !FlushDue(t + 4_000_000, t + 2_000_000, gap);
    assert FlushDue(t + 9_000_000, t + 2_000_000, gap);
    RunSnoc(Idle, gap, burst, p3);
    assert Run(Idle, gap, burst + [p3]).acc == buffered;
    assert Run(Idle, gap, burst + [p3]).events == [];
    RunSnoc(Idle, gap, burst + [p3], p4);
    assert burst + [p3] + [p4] == [burst[0], burst[1], burst[2], p3, p4];
  }

  lemma BurstExampleText()
    ensures Render(AtoB, FrameFlushed("late", [0x41, 0x42, 0x43])).text == "[A->B] late : 41 42 43\n"
  {
  }

  /**
   * The case of a 9600 baud link: bytes 41, 42 and 43 a millisecond apart,
   * a quiet pass 2 ms after the last, which is too soon, and another 7 ms
   * after it, which flushes one frame rendered as "41 42 43".
   */
  lemma BurstExample()
    ensures var gap := Derive(9600, 10, 3).flushGapNs;
            var t := 1_000_000_000;
            var ps := [Read([0x41], t, None), Read([0x42], t + 1_000_000, None), Read([0x43], t + 2_000_000, None),
                       Quiet(t + 4_000_000, "early"), Quiet(t + 9_000_000, "late")];
            var r := Run(Idle, gap, ps);
            r.events == [FrameFlushed("late", [0x41, 0x42, 0x43])] && r.acc == Idle &&
            Render(AtoB, r.events[0]).text == "[A->B] late : 41 42 43\n"
  {
    Baud9600Example();
    BurstExampleRun(3_124_998);
    BurstExampleText();
  }
}
