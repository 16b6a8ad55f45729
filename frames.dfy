/**
 * The three 3-byte MPSSE command frames ftdi_read.c sends, and the one
 * `char buf[3]` it builds them in. Opcodes are those of FTDI application note
 * AN_108 ("Command Processor for MPSSE and MCU Host Bus Emulation Modes"):
 * 0x80 sets the low byte of GPIO data bits (value, then direction), 0x2C clocks
 * data bytes in, followed by a little-endian length-minus-one field.
 */
module Frames {

  /** AN_108 "Set Data Bits Low Byte". */
  const SetBitsLow: bv8 := 0x80
  /** AN_108 "Clock Data Bytes In" (LSB first, sampled on the falling edge). */
  const ClockBytesIn: bv8 := 0x2C
  /** GPIOL0 (bit 4), the trigger line, is the only output of the low bank. */
  const TriggerDirection: bv8 := 0x10
  /** Number of sample bytes captured per run (the `LEN` macro). */
  const Len: nat := 0xFFFF

  /** A GPIO frame: opcode, value byte, direction byte. */
  function GpioFrame(value: bv8, direction: bv8): seq<bv8>
  {
    [SetBitsLow, value, direction]
  }

  /** Drives every line of the bank high (the trigger pulse starts). */
  function HighFrame(): seq<bv8>
  {
    GpioFrame(0xFF, TriggerDirection)
  }

  /** Drives every line of the bank low (the trigger pulse ends). */
  function LowFrame(): seq<bv8>
  {
    GpioFrame(0x00, TriggerDirection)
  }

  /**
   * The capture frame for `len` bytes. Both length bytes go through C's
   * conversion to `char`, which keeps the low 8 bits: a length above 0x10000
   * therefore wraps. `len - 1` is non-negative, so `>> 8` is division by 256.
   */
  function CaptureFrame(len: nat): (f: seq<bv8>)
    requires len >= 1
    ensures |f| == 3 && f[0] == ClockBytesIn
  {
    [ClockBytesIn, ByteOf((len - 1) % 256), ByteOf(((len - 1) / 256) % 256)]
  }

  /** The byte holding the value x < 256. */
  function ByteOf(x: nat): (b: bv8)
    requires x < 256
    ensures b as int == x
  {
    if x == 0 then 0 else ByteOf(x - 1) + 1
  }

  /** What a device reading the frame takes as the byte count: the
      little-endian field plus one. */
  function CapturedLength(f: seq<bv8>): nat
    requires |f| == 3
  {
    f[1] as int + 256 * f[2] as int + 1
  }

  /** The opcode and the direction byte of the two trigger frames agree;
      only the value byte (index 1) differs, high before low. */
  lemma TriggerFramesDifferInValueOnly()
    ensures |HighFrame()| == |LowFrame()| == 3
    ensures HighFrame()[0] == LowFrame()[0] == SetBitsLow
    ensures HighFrame()[2] == LowFrame()[2] == TriggerDirection
    ensures HighFrame()[1] == 0xFF && LowFrame()[1] == 0x00
    ensures forall k :: 0 <= k < 3 && k != 1 ==> HighFrame()[k] == LowFrame()[k]
  {
  }

  /** The length field round-trips: the device reads back `len` bytes exactly
      when `len` fits the 16-bit field, and `len` modulo 0x10000 otherwise. */
  lemma CaptureLengthRoundTrip(len: nat)
    requires len >= 1
    ensures CapturedLength(CaptureFrame(len)) == (len - 1) % 0x10000 + 1
    ensures CapturedLength(CaptureFrame(len)) == len <==> len <= 0x10000
  {
    var x := len - 1;
    var q, lo := x / 256, x % 256;
    var q2, hi := q / 256, q % 256;
    assert x == 256 * q + lo && q == 256 * q2 + hi;
    assert x == 0x10000 * q2 + (256 * hi + lo);
    ModOfSplit(x, q2, 256 * hi + lo);
  }

  lemma ModOfSplit(x: int, q: int, r: int)
    requires 0 <= r < 0x10000 && x == 0x10000 * q + r
    ensures x % 0x10000 == r
  {
  }

  /** The frame the program sends for LEN = 0xFFFF. */
  lemma CaptureFrameForLen()
    ensures CaptureFrame(Len) == [ClockBytesIn, 0xFE, 0xFF]
    ensures CapturedLength(CaptureFrame(Len)) == Len
  {
    CaptureLengthRoundTrip(Len);
  }

  /** The adapter as a sink of command bytes: the frames written so far. */
  class CommandSink {
    var sent: seq<seq<bv8>>

    constructor ()
      ensures sent == []
    {
      sent := [];
    }

    /** `ftdi_write_data(ftdi, buf, n)`: the first n bytes of buf go out as
        one frame. The returned count is only printed by the program and is
        not modelled. */
    method Write(buf: array<bv8>, n: nat)
      requires n <= buf.Length
      modifies this
      ensures sent == old(sent) + [buf[..n]]
    {
      sent := sent + [buf[..n]];
    }
  }

  /**
   * The trigger pulse: the high frame, the 10 us pause (not modelled), then
   * the same buffer with only its value byte cleared.
   */
  method SendTrigger(buf: array<bv8>, sink: CommandSink)
    requires buf.Length == 3
    modifies buf, sink
    ensures sink.sent == old(sink.sent) + [HighFrame(), LowFrame()]
    ensures buf[..] == LowFrame()
  {
    buf[0] := SetBitsLow;
    buf[1] := 0xFF;
    buf[2] := TriggerDirection;
    sink.Write(buf, 3);
    assert buf[..3] == HighFrame();
    buf[1] := 0;
    sink.Write(buf, 3);
    assert buf[..3] == LowFrame();
  }

  /** Reuses the buffer for the capture command of `len` bytes. */
  method SendCapture(buf: array<bv8>, sink: CommandSink, len: nat)
    requires buf.Length == 3 && len >= 1
    modifies buf, sink
    ensures sink.sent == old(sink.sent) + [CaptureFrame(len)]
    ensures buf[..] == CaptureFrame(len)
  {
    buf[0] := ClockBytesIn;
    buf[1] := ByteOf((len - 1) % 256);
    buf[2] := ByteOf(((len - 1) / 256) % 256);
    sink.Write(buf, 3);
    assert buf[..3] == buf[..] == CaptureFrame(len);
  }
}
