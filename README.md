# HC-SR04 echo capture over an FT232H in MPSSE mode — Dafny model

`ftdi_read.c` drives an HC-SR04 ultrasonic sensor through an FTDI FT232H
adapter in MPSSE mode. Everything happens in one `main`. After configuring the
device it:

1. sends a trigger pulse as two `SET_BITS_LOW` frames: every low-bank line high, then low, with GPIOL0 as the only output;
2. sends one "clock data bytes in" command (opcode 0x2C) for `LEN = 0xFFFF` bytes;
3. reads the sample stream into `uint8_t out[LEN]` with a non-blocking read in a do/while loop;
4. finds the echo pulse at bit resolution. A forward scan finds the first non-zero byte; a backward scan finds the last one. Each adds the in-byte offset from `while (b >>= 1) k++`, which is the highest set bit.

The project models these four pieces and their order. The model is imperative where the program is:

- a 3-byte array is rebuilt field by field for each frame;
- the read loop writes chunks into the buffer in place;
- the scans are loops with `break`;
- the bit count is a destructive shift loop.

Each method is proved against a pure specification function, and lemmas state what the program's checks actually report.

| file | module | models |
|---|---|---|
| `highbit.dfy` | `HighBit` | `Hsb`, the highest-set-bit reference, and `ShiftCount`, the `while (b >>= 1) k++` loop |
| `frames.dfy` | `Frames` | the trigger and capture frames, the reused `buf[3]`, the byte sink `CommandSink` |
| `accumulator.dfy` | `Accumulator` | the byte source `SampleSource` (`ftdi_read_data`) and the `sofar` loop |
| `edges.dfy` | `EdgeLocator` | both scans, the `!start` and `end == LEN` checks, their boundary behaviour, and the out-of-bounds read |
| `measurement.dfy` | `Measurement` | one whole run, and the integer pulse width |

The edge locator takes the buffer length `n` as a parameter. The program uses `n == LEN`, and `LEN` is also the `end` sentinel, so the model uses `out.Length` for both.

The checks are reproduced as written, not corrected:

- `!start` also fires when the first byte is `0x01`;
- `end == LEN` also fires when the last non-zero byte is 8191 with bit 7 set;
- the backward scan never looks at `out[0]`.

Some behaviour of the code worth knowing:

- the program makes one measurement and exits;
- `LEN` is 0xFFFF;
- the read loop has no deadline;
- the capture length field holds `LEN - 1`;
- write counts are printed, and a short write is not treated as an error;
- the distance divisor is 34800;
- `start == end` is possible. `LoneLowBit` shows that a lone `0x01` byte at index `i >= 1` gives `Pulse(8i, 8i)`.

## Model

| member | source | states |
|---|---|---|
| `HighBit.Hsb` | ftdi_read.c:105 | the in-byte offset of a non-zero byte is at most 7 (reference: the index of its highest set bit) |
| `HighBit.HsbBounds` | ftdi_read.c:105 | 2^k <= b < 2^(k+1) for k = Hsb(b): the offset is floor(log2 b) |
| `HighBit.HsbUnique` | ftdi_read.c:105 | any k with 2^k <= b < 2^(k+1) is Hsb(b) |
| `HighBit.ShrPastHsb` | ftdi_read.c:105 | the k-th single right shift of a non-zero byte leaves a non-zero value exactly when k <= Hsb(b), so the loop body runs Hsb(b) times |
| `HighBit.ShrZeroAfter8` | ftdi_read.c:105 | eight or more shifts leave any byte zero, so the loop always stops |
| `HighBit.ShiftCount` | ftdi_read.c:105 | the shift loop counts k <= 7 rounds, with k == Hsb(b) for b != 0 and k == 0 for b == 0 |
| `Frames.TriggerFramesDifferInValueOnly` | ftdi_read.c:53-63 | the high frame is [0x80, 0xFF, 0x10] and the low frame is [0x80, 0x00, 0x10]; opcode and direction agree, only byte 1 differs |
| `Frames.CaptureLengthRoundTrip` | ftdi_read.c:77-79 | the little-endian length-minus-one field decodes to (len-1) mod 0x10000 + 1, which is len exactly when len <= 0x10000 (the `char` stores keep 8 bits) |
| `Frames.CaptureFrameForLen` | ftdi_read.c:75-79 | for LEN = 0xFFFF the frame is [0x2C, 0xFE, 0xFF] and asks for exactly LEN bytes |
| `Frames.CommandSink.Write` | ftdi_read.c:57 | the first n bytes of the buffer are appended to the frames sent |
| `Frames.SendTrigger` | ftdi_read.c:51-65 | the sink receives the high frame then the low frame, and buf is left holding the low frame (byte 1 overwritten in place) |
| `Frames.SendCapture` | ftdi_read.c:77-81 | the same buf is rewritten to the capture frame, which is sent next |
| `Accumulator.SampleSource.Read` | ftdi_read.c:90 | at most `max` bytes are written at `out[offset..]`, and they are the first available ones in arrival order; nothing else in `out` changes; the rest stays pending |
| `Accumulator.Accumulate` | ftdi_read.c:86-93 | sofar <= LEN throughout; `out[..sofar]` is the first `sofar` bytes the device sent, with each chunk right after the previous one; bytes past `sofar` are untouched; the source keeps exactly the bytes after the first `sofar`; the buffer is filled (sofar == LEN) exactly when the device sends at least LEN bytes, and otherwise the loop would spin |
| `EdgeLocator.FirstNonZero` | ftdi_read.c:101-102 | the result is the least index holding a non-zero byte, or none when all bytes are zero |
| `EdgeLocator.LastNonZero` | ftdi_read.c:114-115 | the result is the greatest index in a range holding a non-zero byte, or none when that range is zero |
| `EdgeLocator.ScanStart` | ftdi_read.c:100-108 | the forward loop leaves `start` as StartBit(out) |
| `EdgeLocator.ScanEnd` | ftdi_read.c:114-121 | the backward loop over in-bounds indices n-1 down to 1 leaves `end` as EndBit(out) |
| `EdgeLocator.LocateEdges` | ftdi_read.c:99-125 | the scans and both checks yield Locate(out) |
| `EdgeLocator.StartIsFirstSetByte` | ftdi_read.c:101-108 | for the first non-zero byte i (every earlier byte zero), start == i*8 + Hsb(out[i]) and i*8 <= start <= i*8+7 |
| `EdgeLocator.EndIsLastSetByte` | ftdi_read.c:114-121 | for the last non-zero byte j >= 1, end == j*8 + Hsb(out[j]), within byte j's bits |
| `EdgeLocator.NoHighBitsExactly` | ftdi_read.c:109-112 | "No high bits" is reported if and only if the buffer is all zero or out[0] == 0x01 |
| `EdgeLocator.NoPulseEndExactly` | ftdi_read.c:122-125 | "No pulse end" is reported if and only if the start check passes and either no byte at index >= 1 is non-zero, or the last one, j, gives j*8 + Hsb(out[j]) == n |
| `EdgeLocator.PulseWindowOrdered` | ftdi_read.c:100-125 | when both checks pass, 0 < start <= end < 8n |
| `EdgeLocator.SentinelAtLen` | ftdi_read.c:122 | for n == LEN, the sentinel is hit exactly when the last non-zero byte is 8191 and has bit 7 set |
| `EdgeLocator.SpuriousNoPulseEnd` | ftdi_read.c:122-125 | a capture whose echo fills bytes 100..8191 is reported as "No pulse end" |
| `EdgeLocator.FirstByteNeverEnds` | ftdi_read.c:114 | a pulse confined to out[0] that passes the start check (out[0] >= 2) is reported as "No pulse end", because index 0 is never scanned |
| `EdgeLocator.LoneLowBit` | ftdi_read.c:101-125 | a lone 0x01 byte at index i >= 1 (i*8 != n) gives a zero-width pulse start == end == i*8 |
| `EdgeLocator.EndBitAsWritten` | ftdi_read.c:114-121 | the backward scan as written, over indices n down to 1 of `out` followed by the byte `past`, with `end` starting at n: the result is n, or a bit of a byte in 1..n, so it can reach 8n + 7, past the last sample |
| `EdgeLocator.OutOfBoundsEnd` | ftdi_read.c:114-115 | with the memory after the buffer holding `past`, the as-written end is n*8 + Hsb(past) >= 8n (outside the buffer) when past != 0, and coincides with EndBit only when past == 0 |
| `Measurement.PulseWidth` | ftdi_read.c:127-128 | the pulse width end - start is a natural number below 8n |
| `Measurement.MeasureOnce` | ftdi_read.c:51-125 | frames go out high, low, capture(LEN); the run hangs when the device sends fewer than LEN bytes, and otherwise yields Locate of the first LEN bytes |

## Findings

| source | as written | input that shows it | evidently intended | confidence | as-written member | corrected member |
|---|---|---|---|---|---|---|
| ftdi_read.c:114-115 | `for (int i = LEN; i; i--)` reads `out[i]` first with `i == LEN`, one past the end of `uint8_t out[LEN]` | any capture where the byte stored just after `out` is non-zero, for example 0x01: `end` becomes LEN*8 = 524280, past the last sample, whatever the buffer holds | start the scan at the last in-bounds index, LEN - 1 | not executed; high that the read is out of bounds, since the loop bound is plain; what the read returns depends on memory layout | `EdgeLocator.EndBitAsWritten` | `EdgeLocator.ScanEnd` |

`EdgeLocator.OutOfBoundsEnd` proves that the as-written scan goes wrong for a non-zero `past`. `EdgeLocator.EndIsLastSetByte` and `EdgeLocator.PulseWindowOrdered` prove that the corrected scan lands inside the buffer. The rest of the model uses the corrected scan.

## Left out

- Device setup and teardown (ftdi_read.c:23-39, 144-156) are calls into libftdi and `goto` cleanup, so they are not modelled. The model keeps only `ftdi_write_data`, as `CommandSink.Write`, and `ftdi_read_data`, as `SampleSource.Read`.
- `print_byte`, the `printf` diagnostics and the buffer dump (ftdi_read.c:8-19, 41, 58, 65, 82, 92, 95-97, 127) are presentation only.
- The 10 µs `nanosleep` between the trigger frames (ftdi_read.c:60-61) is real time and cannot be verified. Only the order of the two frames is modelled.
- The floating-point distance `(float)(end-start)/34800` and its derivation (ftdi_read.c:128-137) are not modelled. The model has only the integer width `PulseWidth`.
- Error (negative) returns of `ftdi_read_data` and `ftdi_write_data` are not modelled, because the program does not handle them. It would add a negative read count to `sofar`. The model's source never fails.
- Frames.CommandSink.Write: does not return the written count, because the program only prints it; short writes are not modelled.
- Accumulator.Accumulate: does not model non-termination directly, because the model proves that every method terminates. When the source is exhausted before LEN bytes, the program would loop for ever on zero-byte reads. The model stops there and returns `filled == false`, and `MeasureOnce` reports `Hangs`.
- Accumulator.SampleSource.Read: the device is a fixed list of chunks, one arriving before each call. libftdi's USB packet handling and modem-status bytes are not modelled.
- The sample order within a byte is not modelled. The model reproduces the program's highest-set-bit offset for both edges and does not map bits to sample times.
- The width of C `int` is not modelled. For `LEN` the largest position is 0xFFFE*8 + 7, which fits in 32 bits. For other buffer lengths the model's integers are unbounded.
