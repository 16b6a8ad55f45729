/**
 * The accumulation read of ftdi_read.c: `ftdi_read_data` does not wait, it
 * returns between zero and the requested number of bytes, so the program
 * calls it in a do/while loop, storing each chunk at offset `sofar`, until
 * LEN bytes have arrived. There is no timeout.
 */
module Accumulator {

  /** The bytes of a sequence of chunks, in order. */
  function Flatten(chunks: seq<seq<bv8>>): (r: seq<bv8>)
  {
    if chunks == [] then [] else chunks[0] + Flatten(chunks[1..])
  }

  function Min(a: nat, b: nat): nat
  {
    if a <= b then a else b
  }

  /**
   * The adapter as a source of sample bytes. `arrivals[k]` is what reaches
   * the host before the k-th read call; `pending` is what has arrived and
   * not yet been handed out (libftdi's receive buffer). Every byte is handed
   * out once, in arrival order.
   */
  class SampleSource {
    var arrivals: seq<seq<bv8>>
    var pending: seq<bv8>

    constructor (arrivals: seq<seq<bv8>>)
      ensures this.arrivals == arrivals && pending == []
    {
      this.arrivals := arrivals;
      pending := [];
    }

    /** What a read call can hand out: what is pending plus what arrives
        just before the call. */
    function Available(): seq<bv8>
      reads this
    {
      pending + if arrivals == [] then [] else arrivals[0]
    }

    /** What arrives after the next call. */
    function Later(): seq<seq<bv8>>
      reads this
    {
      if arrivals == [] then [] else arrivals[1..]
    }

    /** Everything the source will still hand out. */
    function Remaining(): (r: seq<bv8>)
      reads this
      ensures r == Available() + Flatten(Later())
    {
      pending + Flatten(arrivals)
    }

    /**
     * `ftdi_read_data(ftdi, out + offset, max)`: writes the first
     * `ret <= max` available bytes at `out[offset..]` and returns their
     * number; zero when nothing is available. Nothing else in `out` changes.
     */
    method Read(out: array<bv8>, offset: nat, max: nat) returns (ret: nat)
      requires offset + max <= out.Length
      modifies this, out
      ensures ret == Min(max, |old(Available())|)
      ensures out[offset..offset + ret] == old(Available())[..ret]
      ensures forall k :: 0 <= k < out.Length && !(offset <= k < offset + ret) ==> out[k] == old(out[k])
      ensures pending == old(Available())[ret..] && arrivals == old(Later())
    {
      var avail := Available();
      arrivals := Later();
      ret := Min(max, |avail|);
      forall j | 0 <= j < ret {
        out[offset + j] := avail[j];
      }
      pending := avail[ret..];
    }
  }

  /**
   * One read, on plain sequences: `pre` and `now` are the buffer before and
   * after a read that stored `avail[..ret]` at `sofar`, and `rem` is what the
   * source still holds afterwards. The filled part stays the stream's prefix
   * and the source keeps the rest of the stream.
   */
  lemma ReadStep(pre: seq<bv8>, now: seq<bv8>, stream: seq<bv8>,
                 avail: seq<bv8>, later: seq<seq<bv8>>, rem: seq<bv8>, sofar: nat, ret: nat)
    requires sofar <= |stream| && sofar <= |pre| && sofar + ret <= |now| && ret <= |avail|
    requires pre[..sofar] == stream[..sofar] && avail + Flatten(later) == stream[sofar..]
    requires now[..sofar] == pre[..sofar] && now[sofar..sofar + ret] == avail[..ret]
    requires rem == avail[ret..] + Flatten(later)
    ensures sofar + ret <= |stream|
    ensures now[..sofar + ret] == stream[..sofar + ret]
    ensures rem == stream[sofar + ret..]
  {
    assert avail == avail[..ret] + avail[ret..];
    assert stream == stream[..sofar] + stream[sofar..];
    assert now[..sofar + ret] == now[..sofar] + now[sofar..sofar + ret];
  }

  /**
   * The do/while loop: read into `out[sofar..]` at most `out.Length - sofar`
   * bytes per call until the buffer is full. The buffer always holds a prefix
   * of the source's stream: `out[..sofar]` is the first `sofar` bytes of it,
   * each chunk landing right after the previous one, and the rest of `out`
   * untouched. The source keeps exactly the bytes not consumed.
   *
   * Once the source has nothing left, every further call returns zero bytes
   * and the program's loop would spin for ever; the model stops there and
   * reports `filled == false`.
   */
  method Accumulate(out: array<bv8>, src: SampleSource) returns (sofar: nat, filled: bool)
    modifies out, src
    ensures sofar == Min(out.Length, |old(src.Remaining())|)
    ensures filled <==> sofar == out.Length
    ensures out[..sofar] == old(src.Remaining())[..sofar]
    ensures forall k :: sofar <= k < out.Length ==> out[k] == old(out[k])
    ensures sofar <= |old(src.Remaining())| && src.Remaining() == old(src.Remaining())[sofar..]
  {
    ghost var stream := src.Remaining();
    sofar := 0;
    while true
      invariant sofar <= out.Length && sofar <= |stream|
      invariant out[..sofar] == stream[..sofar]
      invariant src.Remaining() == stream[sofar..]
      invariant forall k :: sofar <= k < out.Length ==> out[k] == old(out[k])
      decreases |src.arrivals|, |src.pending|
    {
      ghost var pre, avail, later := out[..], src.Available(), src.Later();
      var ret := src.Read(out, sofar, out.Length - sofar);
      ReadStep(pre, out[..], stream, avail, later, src.Remaining(), sofar, ret);
      sofar := sofar + ret;
      if sofar == out.Length {
        filled := true;
        break;
      }
      if src.arrivals == [] && src.pending == [] {
        filled := false;
        break;
      }
      assert later == [] ==> avail != [] && ret == |avail|;
    }
  }
}
