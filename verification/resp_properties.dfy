/**
 * What one call of `parse_request` does, reply type by reply type, stated
 * about the bytes on the wire rather than about the decoder's code.
 */
module RespProperties {
  import opened Bytes
  import opened Decimal
  import opened Reader
  import opened Resp
  import Utf8

  /**
   * At `pos` the input holds the header line `tag body last LF`: `body` and
   * `last` hold no line feed, so the line read there ends right after the
   * LF. `last` is the byte the protocol wants to be CR; nothing checks it.
   */
  ghost predicate HeaderAt(data: seq<u8>, pos: nat, tag: u8, body: seq<u8>, last: u8) {
    pos + |body| + 3 <= |data| &&
    data[pos .. pos + |body| + 3] == [tag] + body + [last, LF] &&
    tag != LF && LF !in body && last != LF
  }

  /** The header line is read up to and including its LF, and no further. */
  lemma HeaderLineEnd(data: seq<u8>, pos: nat, tag: u8, body: seq<u8>, last: u8)
    requires HeaderAt(data, pos, tag, body, last)
    ensures LineEnd(data, pos) == pos + |body| + 3
    ensures data[pos] == tag && data[pos + 1 .. pos + |body| + 1] == body
  {
    var stop := pos + |body| + 3;
    var line := data[pos .. stop];
    assert data[stop - 1] == line[|body| + 2] == LF;
    forall i | pos <= i < stop - 1
      ensures data[i] != LF
    {
      assert data[i] == line[i - pos];
      if i == pos {
        assert line[0] == tag;
      } else if i - pos <= |body| {
        assert line[i - pos] == body[i - pos - 1];
      } else {
        assert line[i - pos] == last;
      }
    }
    assert data[pos + 1 .. pos + |body| + 1] == line[1 .. |body| + 1];
  }

  /** Decoding reads the header line, then acts on its tag byte and body. */
  lemma DecodeHeader(data: seq<u8>, pos: nat, tag: u8, body: seq<u8>, last: u8)
    requires HeaderAt(data, pos, tag, body, last)
    ensures Decode(data, pos) == Dispatch(data, pos, pos + |body| + 3)
    ensures data[pos] == tag && data[pos + 1 .. pos + |body| + 1] == body
  {
    HeaderLineEnd(data, pos, tag, body, last);
  }

  /** `+text\r\n` is the simple string `text` when `text` is UTF-8; only the line is read. */
  lemma SimpleStringReply(data: seq<u8>, pos: nat, body: seq<u8>, last: u8)
    requires HeaderAt(data, pos, PLUS, body, last)
    ensures Decode(data, pos) ==
      Step(if Utf8.Valid(body) then Ok(String(body)) else Err(InvalidUtf8), pos + |body| + 3)
  {
    DecodeHeader(data, pos, PLUS, body, last);
  }

  /** `-text\r\n` is the error `text` when `text` is UTF-8; only the line is read. */
  lemma ErrorReply(data: seq<u8>, pos: nat, body: seq<u8>, last: u8)
    requires HeaderAt(data, pos, MINUS, body, last)
    ensures Decode(data, pos) ==
      Step(if Utf8.Valid(body) then Ok(Error(body)) else Err(InvalidUtf8), pos + |body| + 3)
  {
    DecodeHeader(data, pos, MINUS, body, last);
  }

  /**
   * `:digits\r\n` is an integer exactly when the body is a signed decimal
   * in the i64 range; otherwise the UTF-8 check or the number parse
   * rejects it. Only the line is read.
   */
  lemma IntegerReply(data: seq<u8>, pos: nat, body: seq<u8>, last: u8)
    requires HeaderAt(data, pos, COLON, body, last)
    ensures Decode(data, pos) ==
      Step(if IsSignedDecimal(body) && InI64(SignedValue(body)) then Ok(Integer(SignedValue(body) as i64))
           else Err(if Utf8.Valid(body) then InvalidInteger else InvalidUtf8),
           pos + |body| + 3)
  {
    DecodeHeader(data, pos, COLON, body, last);
  }

  /** A `$` or `*` header whose body is not a decimal i64 is rejected after the line. */
  lemma LengthNotAnInteger(data: seq<u8>, pos: nat, tag: u8, body: seq<u8>, last: u8)
    requires tag == DOLLAR || tag == STAR
    requires HeaderAt(data, pos, tag, body, last)
    requires !(IsSignedDecimal(body) && InI64(SignedValue(body)))
    ensures Decode(data, pos) ==
      Step(Err(if Utf8.Valid(body) then InvalidInteger else InvalidUtf8), pos + |body| + 3)
  {
    DecodeHeader(data, pos, tag, body, last);
  }

  /** `$-1\r\n` is `Null`, and nothing after the header line is read. */
  lemma NullBulkReply(data: seq<u8>, pos: nat, body: seq<u8>, last: u8)
    requires HeaderAt(data, pos, DOLLAR, body, last)
    requires IsSignedDecimal(body) && SignedValue(body) == -1
    ensures Decode(data, pos) == Step(Ok(Null), pos + |body| + 3)
  {
    DecodeHeader(data, pos, DOLLAR, body, last);
  }

  /** `*-1\r\n` is `NullArray`, and nothing after the header line is read. */
  lemma NullArrayReply(data: seq<u8>, pos: nat, body: seq<u8>, last: u8)
    requires HeaderAt(data, pos, STAR, body, last)
    requires IsSignedDecimal(body) && SignedValue(body) == -1
    ensures Decode(data, pos) == Step(Ok(NullArray), pos + |body| + 3)
  {
    DecodeHeader(data, pos, STAR, body, last);
  }

  /** A `$` or `*` length below -1 is outside what the source can handle. */
  lemma NegativeLengthRejected(data: seq<u8>, pos: nat, tag: u8, body: seq<u8>, last: u8)
    requires tag == DOLLAR || tag == STAR
    requires HeaderAt(data, pos, tag, body, last)
    requires IsSignedDecimal(body) && I64_MIN <= SignedValue(body) < -1
    ensures Decode(data, pos) == Step(Err(NegativeLength), pos + |body| + 3)
  {
    DecodeHeader(data, pos, tag, body, last);
  }

  /**
   * `$n\r\n` with n >= 0 followed by n bytes `payload` and two more bytes
   * reads exactly those n + 2 bytes. It fails when the two are not CR LF,
   * and otherwise yields `payload` as a `String` (the same variant as `+`),
   * which must be UTF-8.
   */
  lemma BulkStringReply(data: seq<u8>, pos: nat, body: seq<u8>, last: u8, payload: seq<u8>, a: u8, b: u8)
    requires HeaderAt(data, pos, DOLLAR, body, last)
    requires IsSignedDecimal(body) && SignedValue(body) == |payload| && |payload| <= I64_MAX
    requires var start := pos + |body| + 3;
      start + |payload| + 2 <= |data| && data[start .. start + |payload| + 2] == payload + [a, b]
    ensures Decode(data, pos) ==
      Step(if [a, b] != CRLF then Err(InvalidCrlf)
           else if !Utf8.Valid(payload) then Err(InvalidUtf8)
           else Ok(String(payload)),
           pos + |body| + 3 + |payload| + 2)
  {
    BulkHeader(data, pos, body, last, |payload|);
    BulkPayload(data, pos + |body| + 3, payload, a, b);
  }

  /** `$n\r\n` with n >= 0 fails, draining the input, when fewer than n + 2 bytes follow. */
  lemma BulkStringTruncated(data: seq<u8>, pos: nat, body: seq<u8>, last: u8, n: nat)
    requires HeaderAt(data, pos, DOLLAR, body, last)
    requires IsSignedDecimal(body) && SignedValue(body) == n && n <= I64_MAX
    requires |data| < pos + |body| + 3 + n + 2
    ensures Decode(data, pos) == Step(Err(UnexpectedEof), |data|)
  {
    BulkHeader(data, pos, body, last, n);
  }

  /** After a `$n` header with n >= 0 comes the payload read. */
  lemma BulkHeader(data: seq<u8>, pos: nat, body: seq<u8>, last: u8, n: nat)
    requires HeaderAt(data, pos, DOLLAR, body, last)
    requires IsSignedDecimal(body) && SignedValue(body) == n && n <= I64_MAX
    ensures Decode(data, pos) == DecodeBulk(data, pos + |body| + 3, n)
  {
    DecodeHeader(data, pos, DOLLAR, body, last);
  }

  /** The payload read of a bulk string when all n + 2 bytes are there. */
  lemma BulkPayload(data: seq<u8>, start: nat, payload: seq<u8>, a: u8, b: u8)
    requires start + |payload| + 2 <= |data| && data[start .. start + |payload| + 2] == payload + [a, b]
    ensures DecodeBulk(data, start, |payload|) ==
      Step(if [a, b] != CRLF then Err(InvalidCrlf)
           else if !Utf8.Valid(payload) then Err(InvalidUtf8)
           else Ok(String(payload)),
           start + |payload| + 2)
  {
    var n := |payload|;
    var block := data[start .. start + n + 2];
    assert block[..n] == payload;
    assert block[n] == a && block[n + 1] == b;
  }

  /** `*n\r\n` with n >= 0 is whatever decoding n values in a row gives. */
  lemma ArrayReply(data: seq<u8>, pos: nat, body: seq<u8>, last: u8, n: nat)
    requires HeaderAt(data, pos, STAR, body, last)
    requires IsSignedDecimal(body) && SignedValue(body) == n && n <= I64_MAX
    ensures Decode(data, pos) == DecodeArray(data, pos + |body| + 3, n)
  {
    DecodeHeader(data, pos, STAR, body, last);
  }

  /** Any other tag byte is rejected once the header line has been read. */
  lemma UnknownTypeRejected(data: seq<u8>, pos: nat)
    requires pos <= |data| && LineEnd(data, pos) >= pos + 3
    requires data[pos] !in {PLUS, MINUS, COLON, DOLLAR, STAR}
    ensures Decode(data, pos) == Step(Err(InvalidType(data[pos])), LineEnd(data, pos))
  {
  }

  /**
   * A header line under three bytes (in particular the empty read at end
   * of input) cannot be split into tag, body and terminator.
   */
  lemma ShortLineRejected(data: seq<u8>, pos: nat)
    requires pos <= |data| && LineEnd(data, pos) < pos + 3
    ensures Decode(data, pos) == Step(Err(LineTooShort), LineEnd(data, pos))
    ensures pos == |data| ==> Decode(data, pos) == Step(Err(LineTooShort), pos)
  {
  }

  /**
   * At end of input a last line without LF is still taken as a header: its
   * last two bytes are dropped whatever they are.
   */
  lemma UnterminatedLastLine(data: seq<u8>, pos: nat)
    requires pos + 3 <= |data| && LF !in data[pos..] && data[pos] == PLUS
    ensures var body := data[pos + 1 .. |data| - 2];
      Decode(data, pos) == Step(if Utf8.Valid(body) then Ok(String(body)) else Err(InvalidUtf8), |data|)
  {
    forall i | pos <= i < |data|
      ensures data[i] != LF
    {
      assert data[i] == data[pos..][i - pos];
    }
    assert LineEnd(data, pos) == |data|;
    assert Decode(data, pos) == Dispatch(data, pos, |data|);
  }

  // ---------------------------------------------------------------------
  // Arrays: elements are decoded in stream order, each where the previous
  // one stopped, and the first failure fails the whole array
  // ---------------------------------------------------------------------

  /**
   * `vs[i]` is what decoding at `bounds[i]` gives, and it stops at
   * `bounds[i + 1]`.
   */
  ghost predicate Consecutive(data: seq<u8>, bounds: seq<nat>, vs: seq<Value>) {
    |bounds| == |vs| + 1 &&
    (forall i :: 0 <= i < |bounds| ==> bounds[i] <= |data|) &&
    (forall i :: 0 <= i < |vs| ==> Decode(data, bounds[i]) == Step(Ok(vs[i]), bounds[i + 1]))
  }

  /** Where the first `count` values from `pos` start (and where the last ends). */
  ghost function Bounds(data: seq<u8>, pos: nat, count: nat): (b: seq<nat>)
    requires pos <= |data|
    ensures |b| == count + 1 && b[0] == pos
    decreases count
  {
    if count == 0 then [pos] else [pos] + Bounds(data, Decode(data, pos).next, count - 1)
  }

  /** Values that decode one after another are decoded together, in that order. */
  lemma {:induction false} ConsecutiveDecodeMany(data: seq<u8>, bounds: seq<nat>, vs: seq<Value>)
    requires Consecutive(data, bounds, vs)
    ensures DecodeMany(data, bounds[0], |vs|) == Step(Ok(vs), bounds[|vs|])
    decreases |vs|
  {
    if vs != [] {
      assert Consecutive(data, bounds[1..], vs[1..]) by {
        forall i | 0 <= i < |vs| - 1
          ensures Decode(data, bounds[1..][i]) == Step(Ok(vs[1..][i]), bounds[1..][i + 1])
        {
          assert Decode(data, bounds[i + 1]) == Step(Ok(vs[i + 1]), bounds[i + 2]);
        }
      }
      ConsecutiveDecodeMany(data, bounds[1..], vs[1..]);
      assert [vs[0]] + vs[1..] == vs;
    }
  }

  /** Conversely, every value `DecodeMany` returns was decoded where the previous one stopped. */
  lemma {:induction false} DecodeManyConsecutive(data: seq<u8>, pos: nat, count: nat)
    requires pos <= |data| && DecodeMany(data, pos, count).result.Ok?
    ensures var d := DecodeMany(data, pos, count);
      Consecutive(data, Bounds(data, pos, count), d.result.value) &&
      Bounds(data, pos, count)[count] == d.next
    decreases count
  {
    if count > 0 {
      var first := Decode(data, pos);
      var rest := DecodeMany(data, first.next, count - 1);
      DecodeManyConsecutive(data, first.next, count - 1);
      var b := Bounds(data, pos, count);
      var vs := DecodeMany(data, pos, count).result.value;
      assert vs == [first.result.value] + rest.result.value;
      assert b == [pos] + Bounds(data, first.next, count - 1);
      forall i | 0 <= i < count
        ensures Decode(data, b[i]) == Step(Ok(vs[i]), b[i + 1])
      {
        if i > 0 {
          assert b[i] == Bounds(data, first.next, count - 1)[i - 1];
          assert b[i + 1] == Bounds(data, first.next, count - 1)[i];
          assert vs[i] == rest.result.value[i - 1];
        }
      }
    }
  }

  /**
   * When the first `|vs|` values decode but the next one fails, decoding any
   * longer run fails with that value's error: no partial result.
   */
  lemma {:induction false} DecodeManyStopsAtFailure(data: seq<u8>, bounds: seq<nat>, vs: seq<Value>, count: nat)
    requires Consecutive(data, bounds, vs) && count > |vs|
    requires Decode(data, bounds[|vs|]).result.Err?
    ensures var bad := Decode(data, bounds[|vs|]);
      DecodeMany(data, bounds[0], count) == Step(Err(bad.result.error), bad.next)
    decreases |vs|
  {
    if vs != [] {
      assert Consecutive(data, bounds[1..], vs[1..]) by {
        forall i | 0 <= i < |vs| - 1
          ensures Decode(data, bounds[1..][i]) == Step(Ok(vs[1..][i]), bounds[1..][i + 1])
        {
          assert Decode(data, bounds[i + 1]) == Step(Ok(vs[i + 1]), bounds[i + 2]);
        }
      }
      DecodeManyStopsAtFailure(data, bounds[1..], vs[1..], count - 1);
    }
  }

  /**
   * `*n\r\n` followed by n values, each starting where the previous one
   * ended, is the array of exactly those values in that order.
   */
  lemma ArrayOfConsecutiveValues(data: seq<u8>, pos: nat, body: seq<u8>, last: u8, bounds: seq<nat>, vs: seq<Value>)
    requires HeaderAt(data, pos, STAR, body, last)
    requires IsSignedDecimal(body) && SignedValue(body) == |vs| && |vs| <= I64_MAX
    requires Consecutive(data, bounds, vs) && bounds[0] == pos + |body| + 3
    ensures Decode(data, pos) == Step(Ok(Array(vs)), bounds[|vs|])
  {
    ArrayReply(data, pos, body, last, |vs|);
    ConsecutiveDecodeMany(data, bounds, vs);
  }

  /**
   * A successfully decoded `*n` array has exactly n elements, and they are
   * the values decoded one after another right after the header line.
   */
  lemma ArrayElementsInStreamOrder(data: seq<u8>, pos: nat, body: seq<u8>, last: u8, n: nat)
    requires HeaderAt(data, pos, STAR, body, last)
    requires IsSignedDecimal(body) && SignedValue(body) == n && n <= I64_MAX
    requires Decode(data, pos).result.Ok?
    ensures var d := Decode(data, pos);
      var start := pos + |body| + 3;
      d.result.value.Array? && |d.result.value.elements| == n &&
      Consecutive(data, Bounds(data, start, n), d.result.value.elements) &&
      Bounds(data, start, n)[n] == d.next
  {
    var start := pos + |body| + 3;
    ArrayReply(data, pos, body, last, n);
    DecodeManyConsecutive(data, start, n);
  }

  /**
   * If, after a `*n` header, element number `|vs|` (counting from 0, with
   * `|vs| < n`) fails to decode, the whole array fails with its error.
   */
  lemma ArrayFailsAtFirstBadElement(data: seq<u8>, pos: nat, body: seq<u8>, last: u8, n: nat, bounds: seq<nat>, vs: seq<Value>)
    requires HeaderAt(data, pos, STAR, body, last)
    requires IsSignedDecimal(body) && SignedValue(body) == n && n <= I64_MAX
    requires Consecutive(data, bounds, vs) && bounds[0] == pos + |body| + 3 && |vs| < n
    requires Decode(data, bounds[|vs|]).result.Err?
    ensures var bad := Decode(data, bounds[|vs|]);
      Decode(data, pos) == Step(Err(bad.result.error), bad.next)
  {
    ArrayReply(data, pos, body, last, n);
    DecodeManyStopsAtFailure(data, bounds, vs, n);
  }
}
