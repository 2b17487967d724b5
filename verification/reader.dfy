/**
 * The byte source `parse_request` pulls from: a `BufReader` over an
 * in-memory input, i.e. the bytes the peer sends and a cursor into them.
 * Only the two reads the decoder uses are modelled.
 */
module Reader {
  import opened Bytes

  /**
   * Where a `read_until(delim)` that starts at `from` stops: just past the
   * first `delim` at or after `from`, or at the end of the input when there
   * is none.
   */
  function DelimEnd(data: seq<u8>, from: nat, delim: u8): (end: nat)
    requires from <= |data|
    ensures from <= end <= |data|
    ensures end == from <==> from == |data|
    ensures forall i :: from <= i < end - 1 ==> data[i] != delim
    ensures end < |data| ==> data[end - 1] == delim
    decreases |data| - from
  {
    if from == |data| then from
    else if data[from] == delim then from + 1
    else DelimEnd(data, from + 1, delim)
  }

  class BufReader {
    /** Everything the peer sends. */
    const data: seq<u8>
    /** How much of it has been consumed. */
    var pos: nat

    ghost predicate Valid()
      reads this
    {
      pos <= |data|
    }

    constructor (input: seq<u8>)
      ensures Valid()
      ensures data == input && pos == 0
    {
      data := input;
      pos := 0;
    }

    /**
     * `read_until(delim, &mut buf)`: the bytes up to and including the next
     * `delim`, or the rest of the input at end of stream (possibly nothing).
     */
    method ReadUntil(delim: u8) returns (line: seq<u8>)
      requires Valid()
      modifies this
      ensures Valid()
      ensures pos == DelimEnd(data, old(pos), delim)
      ensures line == data[old(pos)..pos]
    {
      var i := pos;
      while i < |data| && data[i] != delim
        invariant pos <= i <= |data|
        invariant DelimEnd(data, i, delim) == DelimEnd(data, pos, delim)
        decreases |data| - i
      {
        i := i + 1;
      }
      if i < |data| {
        i := i + 1;
      }
      line := data[pos..i];
      pos := i;
    }

    /**
     * `read_exact(buf)`: fills `buf` when that many bytes remain; otherwise
     * fails with an unexpected end of stream, having drained what was left.
     */
    method ReadExact(buf: array<u8>) returns (ok: bool)
      requires Valid()
      modifies this, buf
      ensures Valid()
      ensures ok <==> old(pos) + buf.Length <= |data|
      ensures ok ==> pos == old(pos) + buf.Length && buf[..] == data[old(pos)..pos]
      ensures !ok ==> pos == |data|
    {
      if |data| - pos < buf.Length {
        pos := |data|;
        return false;
      }
      var start := pos;
      for i := 0 to buf.Length
        invariant buf[..i] == data[start..start + i]
      {
        buf[i] := data[start + i];
      }
      pos := start + buf.Length;
      return true;
    }
  }
}
