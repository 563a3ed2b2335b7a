/**
 * The events a worker emits to the shared log sink and the (text, colour)
 * pair each one is rendered as. A frame event carries the formatted
 * timestamp and the frame's bytes; the two error events carry the text of
 * the exception they report.
 */
module FrameLog {
  import opened Wrappers
  import opened HexFormat

  /** The (text, colour) pair handed to the log signal. */
  datatype LogEvent = LogEvent(text: string, color: string)

  /** What a worker reports. */
  datatype Event =
    | FrameFlushed(stamp: string, payload: seq<byte>)
    | WriteFailed(reason: string)
    | ForwardingFailed(reason: string)

  /** The direction name of the worker forwarding from A to B; any other name is the B-to-A side. */
  const AtoB: string := "AtoB"
  const ErrorColor: string := "red"

  function Tag(direction: string): (t: string)
  {
    if direction == AtoB then "[A->B]" else "[A<-B]"
  }

  function Color(direction: string): (c: string)
  {
    if direction == AtoB then "#f44250" else "#4285f4"
  }

  /** The start of a frame line: tag, timestamp and a separating colon. */
  function FramePrefix(direction: string, stamp: string): (prefix: string)
  {
    Tag(direction) + " " + stamp + " : "
  }

  /**
   * The (text, colour) pair an event is emitted as: one newline-terminated
   * line, red exactly for the two error events.
   */
  function Render(direction: string, e: Event): (r: LogEvent)
    ensures |r.text| > 0 && r.text[|r.text| - 1] == '\n'
    ensures r.color == ErrorColor <==> !e.FrameFlushed?
    ensures e.FrameFlushed? ==> r.color == Color(direction)
  {
    match e
    case FrameFlushed(stamp, payload) =>
      LogEvent(FramePrefix(direction, stamp) + Hex(payload) + "\n", Color(direction))
    case WriteFailed(reason) =>
      LogEvent("[ERROR] write(" + direction + ") -> " + reason + "\n", ErrorColor)
    case ForwardingFailed(reason) =>
      LogEvent("[ERROR] Forwarding error (" + direction + "): " + reason + "\n", ErrorColor)
  }

  function RenderAll(direction: string, es: seq<Event>): (r: seq<LogEvent>)
    ensures |r| == |es|
    ensures forall i :: 0 <= i < |es| ==> r[i] == Render(direction, es[i])
  {
    seq(|es|, i requires 0 <= i < |es| => Render(direction, es[i]))
  }

  /**
   * The two directions are told apart by tag and by colour, and frame
   * lines never take the colour of error lines.
   */
  lemma DirectionStyle(direction: string)
    ensures Tag(direction) == "[A->B]" <==> direction == AtoB
    ensures Color(direction) == "#f44250" <==> direction == AtoB
    ensures Tag(direction) == "[A<-B]" <==> direction != AtoB
    ensures Color(direction) == "#4285f4" <==> direction != AtoB
    ensures Color(direction) != ErrorColor
  {
  }

  /**
   * A frame line is its prefix, the hex payload and a newline, and the
   * payload can be read back from it unchanged.
   */
  lemma {:induction false} FrameLineDecodes(direction: string, stamp: string, payload: seq<byte>)
    ensures var t := Render(direction, FrameFlushed(stamp, payload)).text;
            var p := |FramePrefix(direction, stamp)|;
            p == |Tag(direction)| + |stamp| + 4 &&
            p < |t| && t[..p] == FramePrefix(direction, stamp) && t[|t| - 1] == '\n' &&
            |t| == p + (if payload == [] then 0 else 3 * |payload| - 1) + 1 &&
            ParseHex(t[p..|t| - 1]) == Some(payload)
  {
    var t := Render(direction, FrameFlushed(stamp, payload)).text;
    var p := |FramePrefix(direction, stamp)|;
    assert t[p..|t| - 1] == Hex(payload);
    ParseHexRoundTrip(payload);
  }
}
