/**
 * One run of ftdi_read.c after the device is configured: the trigger pulse,
 * the capture command, the accumulation read into a zero-filled buffer of
 * LEN bytes, and the edge locator.
 */
module Measurement {
  import opened Frames
  import opened Accumulator
  import opened EdgeLocator

  /** How a run ends. `Hangs` stands for the program's read loop spinning for
      ever after the device stopped sending with fewer than LEN bytes. */
  datatype Run = Hangs(received: nat) | Decoded(outcome: Outcome)

  /** The integer pulse width `end - start`, in samples; the program divides
      it by 34800 to print a distance in metres. */
  function PulseWidth(s: seq<bv8>): (w: nat)
    requires Locate(s).Pulse?
    ensures w < 8 * |s|
  {
    PulseWindowOrdered(s);
    Locate(s).end - Locate(s).start
  }

  /**
   * The command frames go out in the program's order (high, low, capture
   * of LEN bytes); the edges are located in the first LEN bytes the device
   * sends, and the run hangs when it sends fewer.
   */
  method MeasureOnce(sink: CommandSink, src: SampleSource) returns (r: Run)
    modifies sink, src
    ensures sink.sent == old(sink.sent) + [HighFrame(), LowFrame(), CaptureFrame(Len)]
    ensures |old(src.Remaining())| < Len ==> r == Hangs(|old(src.Remaining())|)
    ensures |old(src.Remaining())| >= Len ==> r == Decoded(Locate(old(src.Remaining())[..Len]))
  {
    var buf := new bv8[3];
    SendTrigger(buf, sink);
    SendCapture(buf, sink, Len);
    var out := new bv8[Len](_ => 0);
    var sofar, filled := Accumulate(out, src);
    if !filled {
      return Hangs(sofar);
    }
    assert out[..] == out[..sofar];
    var outcome := LocateEdges(out);
    r := Decoded(outcome);
  }
}
