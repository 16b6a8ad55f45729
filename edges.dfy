/**
 * The edge locator of ftdi_read.c. `out` holds the captured samples, eight
 * per byte. A forward scan finds the first non-zero byte i and sets
 * start = i*8 + Hsb(out[i]); a backward scan finds the last non-zero byte j
 * and sets end = j*8 + Hsb(out[j]). Two checks follow, reproduced here as
 * the program has them:
 *   - `if (!start)`: fails when nothing is set, but also when the first
 *     non-zero byte is out[0] == 0x01, because start then computes to 0;
 *   - `if (end == LEN)`: `end` starts at LEN, so it fails when nothing is
 *     found, but also when a found byte j has j*8 + Hsb(out[j]) == LEN.
 * The backward loop runs i = LEN down to 1: it never looks at out[0], and
 * its first read, out[LEN], is past the end of the buffer. The model scans
 * the in-bounds indices LEN-1 down to 1 (EndBitAsWritten models the
 * out-of-bounds read). The buffer length is a parameter n; the program uses
 * n == LEN, which is also the sentinel.
 */
module EdgeLocator {
  import opened HighBit
  import Frames

  datatype Option<T> = None | Some(value: T)

  /** How the program's run ends after the capture. */
  datatype Outcome =
    | NoHighBits                  // "Error: No high bits"
    | NoPulseEnd                  // "Error: No pulse end"
    | Pulse(start: int, end: int) // "PULSE start-end = end-start"

  /** The least index at or after `from` holding a non-zero byte. */
  function FirstNonZero(s: seq<bv8>, from: nat): (r: Option<nat>)
    requires from <= |s|
    ensures r.None? ==> forall j :: from <= j < |s| ==> s[j] == 0
    ensures r.Some? ==> from <= r.value < |s| && s[r.value] != 0
    ensures r.Some? ==> forall j :: from <= j < r.value ==> s[j] == 0
    decreases |s| - from
  {
    if from == |s| then None
    else if s[from] != 0 then Some(from)
    else FirstNonZero(s, from + 1)
  }

  /** The greatest index in [lo, hi) holding a non-zero byte. */
  function LastNonZero(s: seq<bv8>, lo: nat, hi: nat): (r: Option<nat>)
    requires lo <= hi <= |s|
    ensures r.None? ==> forall j :: lo <= j < hi ==> s[j] == 0
    ensures r.Some? ==> lo <= r.value < hi && s[r.value] != 0
    ensures r.Some? ==> forall j :: r.value < j < hi ==> s[j] == 0
    decreases hi - lo
  {
    if hi == lo then None
    else if s[hi - 1] != 0 then Some(hi - 1)
    else LastNonZero(s, lo, hi - 1)
  }

  /** `start` after the forward scan: 0 when every byte is zero. */
  function StartBit(s: seq<bv8>): int
  {
    match FirstNonZero(s, 0)
    case None => 0
    case Some(i) => 8 * i + Hsb(s[i])
  }

  /** `end` after the backward scan over indices |s|-1 down to 1: |s| (the
      initial value, LEN in the program) when none of them is non-zero. */
  function EndBit(s: seq<bv8>): int
  {
    if |s| <= 1 then |s|
    else match LastNonZero(s, 1, |s|)
      case None => |s|
      case Some(j) => 8 * j + Hsb(s[j])
  }

  /** The two checks, in the program's order. */
  function Locate(s: seq<bv8>): Outcome
  {
    if StartBit(s) == 0 then NoHighBits
    else if EndBit(s) == |s| then NoPulseEnd
    else Pulse(StartBit(s), EndBit(s))
  }

  /** The forward `for` loop with its `break`. */
  method ScanStart(out: array<bv8>) returns (start: int)
    ensures start == StartBit(out[..])
  {
    start := 0;
    for i := 0 to out.Length
      invariant start == 0
      invariant forall j :: 0 <= j < i ==> out[j] == 0
    {
      if out[i] != 0 {
        start := i * 8;
        var k := ShiftCount(out[i]);
        start := start + k;
        assert FirstNonZero(out[..], 0) == Some(i);
        return;
      }
    }
    assert FirstNonZero(out[..], 0) == None;
  }

  /** The backward `for` loop with its `break`, over the in-bounds indices
      n-1 down to 1. */
  method ScanEnd(out: array<bv8>) returns (end: int)
    ensures end == EndBit(out[..])
  {
    end := out.Length;
    var i := out.Length - 1;
    while i >= 1
      invariant -1 <= i <= out.Length - 1
      invariant end == out.Length
      invariant forall j :: i < j < out.Length ==> out[j] == 0
    {
      if out[i] != 0 {
        end := i * 8;
        var k := ShiftCount(out[i]);
        end := end + k;
        assert LastNonZero(out[..], 1, out.Length) == Some(i);
        return;
      }
      i := i - 1;
    }
    assert out.Length > 1 ==> LastNonZero(out[..], 1, out.Length) == None;
  }

  /** The scans and the two failure checks of the program. */
  method LocateEdges(out: array<bv8>) returns (r: Outcome)
    ensures r == Locate(out[..])
  {
    var start := ScanStart(out);
    if start == 0 {
      return NoHighBits;
    }
    var end := ScanEnd(out);
    if end == out.Length {
      return NoPulseEnd;
    }
    return Pulse(start, end);
  }

  // ---------------------------------------------------------------------
  // What the scans compute

  /** The forward scan lands on the first non-zero byte i: start is
      i*8 + Hsb(s[i]), a bit of byte i. */
  lemma StartIsFirstSetByte(s: seq<bv8>, i: nat)
    requires i < |s| && s[i] != 0
    requires forall j :: 0 <= j < i ==> s[j] == 0
    ensures StartBit(s) == 8 * i + Hsb(s[i])
    ensures 8 * i <= StartBit(s) <= 8 * i + 7
  {
    assert FirstNonZero(s, 0) == Some(i);
  }

  /** The backward scan lands on the last non-zero byte j >= 1. */
  lemma EndIsLastSetByte(s: seq<bv8>, j: nat)
    requires 1 <= j < |s| && s[j] != 0
    requires forall m :: j < m < |s| ==> s[m] == 0
    ensures EndBit(s) == 8 * j + Hsb(s[j])
    ensures 8 * j <= EndBit(s) <= 8 * j + 7
  {
    assert LastNonZero(s, 1, |s|) == Some(j);
  }

  /** "No high bits" is reported exactly when the buffer is all zero, or
      when its first byte is 0x01 (start computes to 0 and `!start` holds). */
  lemma NoHighBitsExactly(s: seq<bv8>)
    ensures Locate(s) == NoHighBits <==>
              (forall j :: 0 <= j < |s| ==> s[j] == 0) || (|s| > 0 && s[0] == 0x01)
  {
    match FirstNonZero(s, 0)
    case None =>
    case Some(i) =>
      if i == 0 {
        assert Hsb(s[0]) == 0 <==> s[0] == 0x01;
      }
  }

  /** "No pulse end" is reported exactly when the start check passes and
      either no byte at index 1 or above is non-zero, or the last such byte
      j puts `end` on the sentinel: j*8 + Hsb(s[j]) == |s|. */
  lemma NoPulseEndExactly(s: seq<bv8>)
    ensures Locate(s) == NoPulseEnd <==>
              StartBit(s) != 0 &&
              ((forall j :: 1 <= j < |s| ==> s[j] == 0) ||
               (exists j :: 1 <= j < |s| && s[j] != 0 && (forall m :: j < m < |s| ==> s[m] == 0)
                            && 8 * j + Hsb(s[j]) == |s|))
  {
    if |s| > 1 {
      match LastNonZero(s, 1, |s|)
      case None =>
      case Some(j) =>
        forall j' | 1 <= j' < |s| && s[j'] != 0 && (forall m :: j' < m < |s| ==> s[m] == 0)
          ensures j' == j
        {
        }
    }
  }

  /** When both checks pass, the window is ordered and within the buffer's
      samples: 0 < start <= end < 8*n. */
  lemma PulseWindowOrdered(s: seq<bv8>)
    requires Locate(s).Pulse?
    ensures 0 < Locate(s).start <= Locate(s).end < 8 * |s|
  {
    var i := FirstNonZero(s, 0).value;
    var j := LastNonZero(s, 1, |s|).value;
    if i >= 1 {
      assert i <= j;
    }
  }

  // ---------------------------------------------------------------------
  // Boundary behaviour of the two checks

  /** For the program's LEN = 0xFFFF, the sentinel is hit when the last
      non-zero byte is 8191 and its bit 7 is set (8191*8 + 7 == 0xFFFF). */
  lemma SentinelAtLen(s: seq<bv8>, j: nat)
    requires |s| == Frames.Len
    requires 1 <= j < |s| && s[j] != 0 && forall m :: j < m < |s| ==> s[m] == 0
    ensures EndBit(s) == |s| <==> j == 8191 && s[j] >= 0x80
  {
    EndIsLastSetByte(s, j);
  }

  /** A capture whose echo covers bytes 100 to 8191 entirely is reported
      as "No pulse end". */
  lemma SpuriousNoPulseEnd()
    ensures Locate(seq(Frames.Len, j => if 100 <= j <= 8191 then 0xFF else 0x00)) == NoPulseEnd
  {
    var s: seq<bv8> := seq(Frames.Len, j => if 100 <= j <= 8191 then 0xFF else 0x00);
    StartIsFirstSetByte(s, 100);
    SentinelAtLen(s, 8191);
  }

  /** The backward scan never inspects out[0]: a pulse confined to byte 0
      that passes the start check is reported as "No pulse end". */
  lemma FirstByteNeverEnds(s: seq<bv8>)
    requires |s| >= 2 && s[0] >= 0x02
    requires forall j :: 1 <= j < |s| ==> s[j] == 0
    ensures Locate(s) == NoPulseEnd
  {
    StartIsFirstSetByte(s, 0);
  }

  /** A lone byte 0x01 at index i >= 1 gives a pulse of width zero,
      start == end == i*8, unless i*8 is the sentinel n. */
  lemma LoneLowBit(s: seq<bv8>, i: nat)
    requires 1 <= i < |s| && s[i] == 0x01 && 8 * i != |s|
    requires forall j :: 0 <= j < |s| && j != i ==> s[j] == 0
    ensures Locate(s) == Pulse(8 * i, 8 * i)
  {
    StartIsFirstSetByte(s, i);
    EndIsLastSetByte(s, i);
  }

  // ---------------------------------------------------------------------
  // The backward loop as written: its first read is out[LEN]

  /**
   * `end` as the program computes it when the memory just past the buffer
   * holds the byte `past`: the loop reads indices n down to 1 of s + [past].
   * A found byte j lies in 1..n, so `end` can reach 8*n + 7, past the last
   * sample 8*n - 1.
   */
  function EndBitAsWritten(s: seq<bv8>, past: bv8): (r: int)
    ensures r == |s| || 8 <= r <= 8 * |s| + 7
  {
    var mem := s + [past];
    match LastNonZero(mem, 1, |mem|)
    case None => |s|
    case Some(j) => 8 * j + Hsb(mem[j])
  }

  /** Whatever non-zero byte follows the buffer becomes the pulse end, a
      sample index at or beyond 8*n, outside the buffer; only a zero byte
      there gives the in-bounds result EndBit. */
  lemma OutOfBoundsEnd(s: seq<bv8>, past: bv8)
    requires |s| >= 1
    ensures past != 0 ==> EndBitAsWritten(s, past) == 8 * |s| + Hsb(past) >= 8 * |s|
    ensures past == 0 ==> EndBitAsWritten(s, past) == EndBit(s)
  {
    var mem := s + [past];
    assert forall k :: 0 <= k < |s| ==> mem[k] == s[k];
    if past == 0 && |s| > 1 {
      match LastNonZero(s, 1, |s|)
      case None =>
        assert LastNonZero(mem, 1, |mem|) == None;
      case Some(j) =>
        assert LastNonZero(mem, 1, |mem|) == LastNonZero(mem, 1, |s|);
        assert LastNonZero(mem, 1, |s|) == Some(j);
    } else if past == 0 {
      assert LastNonZero(mem, 1, |mem|) == None;
    } else {
      assert LastNonZero(mem, 1, |mem|) == Some(|s|);
    }
  }
}
