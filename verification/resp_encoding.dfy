/**
 * What the decoder accepts, stated through an encoding of `Value`s into
 * RESP. The source has no encoder: `Encode` below exists only to say what
 * `parse_request` accepts. The values with a wire form are exactly those it
 * can return, and each one's wire form decodes back to it, read exactly to
 * its end.
 */
module RespEncoding {
  import opened Bytes
  import opened Decimal
  import opened Resp
  import opened RespProperties
  import Utf8

  /** A header line: tag, body, CR LF. */
  function Line(tag: u8, body: seq<u8>): seq<u8> {
    [tag] + body + CRLF
  }

  /**
   * Values with a wire form. An error comes only from a `-` line, so it
   * cannot hold a line feed. A string holding one needs the bulk form,
   * whose length must fit in an i64, and so must an array's length.
   */
  ghost predicate Encodable(v: Value)
    decreases v
  {
    match v
    case String(s) => LF in s ==> |s| <= I64_MAX
    case Error(s) => LF !in s
    case Array(vs) => |vs| <= I64_MAX && forall i :: 0 <= i < |vs| ==> Encodable(vs[i])
    case _ => true
  }

  ghost function Encode(v: Value): seq<u8>
    decreases v
  {
    match v
    case Null => Line(DOLLAR, SignedDecimal(-1))
    case NullArray => Line(STAR, SignedDecimal(-1))
    case String(s) => if LF in s then Bulk(s) else Line(PLUS, s)
    case Error(s) => Line(MINUS, s)
    case Integer(n) => Line(COLON, SignedDecimal(n as int))
    case Array(vs) => Line(STAR, SignedDecimal(|vs|)) + EncodeAll(vs)
  }

  ghost function EncodeAll(vs: seq<Value>): seq<u8>
    decreases vs
  {
    if vs == [] then [] else Encode(vs[0]) + EncodeAll(vs[1..])
  }

  /** The bulk wire form `$n CR LF payload CR LF` of a string. */
  ghost function Bulk(s: Text): seq<u8> {
    Line(DOLLAR, SignedDecimal(|s|)) + s + CRLF
  }

  /** The bytes `e` stand in the input from `pos` on. */
  ghost predicate Occurs(data: seq<u8>, pos: nat, e: seq<u8>) {
    pos + |e| <= |data| && forall i :: 0 <= i < |e| ==> data[pos + i] == e[i]
  }

  lemma SplitAt(data: seq<u8>, pos: nat, a: seq<u8>, b: seq<u8>)
    requires Occurs(data, pos, a + b)
    ensures Occurs(data, pos, a) && Occurs(data, pos + |a|, b)
  {
    forall i | 0 <= i < |a|
      ensures data[pos + i] == a[i]
    {
      assert (a + b)[i] == a[i];
    }
    forall i | 0 <= i < |b|
      ensures data[pos + |a| + i] == b[i]
    {
      assert (a + b)[|a| + i] == b[i];
    }
  }

  /** A header line at `pos` is one `HeaderAt` recognises. */
  lemma LineAt(data: seq<u8>, pos: nat, tag: u8, body: seq<u8>)
    requires tag != LF && LF !in body
    requires Occurs(data, pos, Line(tag, body))
    ensures HeaderAt(data, pos, tag, body, CR)
  {
    assert data[pos .. pos + |body| + 3] == Line(tag, body);
  }

  /** The length of an encoded number's header line. */
  lemma NumberLine(data: seq<u8>, pos: nat, tag: u8, x: int)
    requires tag != LF
    requires Occurs(data, pos, Line(tag, SignedDecimal(x)))
    ensures HeaderAt(data, pos, tag, SignedDecimal(x), CR)
    ensures IsSignedDecimal(SignedDecimal(x)) && SignedValue(SignedDecimal(x)) == x
  {
    SignedDecimalHasNoLineFeed(x);
    SignedDecimalValue(x);
    LineAt(data, pos, tag, SignedDecimal(x));
  }

  /** A string goes as a simple string unless it holds a line feed. */
  lemma StringRoundTrip(s: Text, data: seq<u8>, pos: nat)
    requires Encodable(String(s))
    requires Occurs(data, pos, Encode(String(s)))
    ensures Decode(data, pos) == Step(Ok(String(s)), pos + |Encode(String(s))|)
  {
    if LF in s {
      BulkRoundTrip(s, data, pos);
    } else {
      LineAt(data, pos, PLUS, s);
      SimpleStringReply(data, pos, s, CR);
    }
  }

  /** Round trip of the values that are not arrays. */
  lemma LineRoundTrip(v: Value, data: seq<u8>, pos: nat)
    requires Encodable(v) && !v.Array?
    requires Occurs(data, pos, Encode(v))
    ensures Decode(data, pos) == Step(Ok(v), pos + |Encode(v)|)
  {
    match v
    case Null =>
      NumberLine(data, pos, DOLLAR, -1);
      NullBulkReply(data, pos, SignedDecimal(-1), CR);
    case NullArray =>
      NumberLine(data, pos, STAR, -1);
      NullArrayReply(data, pos, SignedDecimal(-1), CR);
    case String(s) =>
      StringRoundTrip(s, data, pos);
    case Error(s) =>
      LineAt(data, pos, MINUS, s);
      ErrorReply(data, pos, s, CR);
    case Integer(n) =>
      NumberLine(data, pos, COLON, n as int);
      IntegerReply(data, pos, SignedDecimal(n as int), CR);
  }

  /** An array header followed by its decoded elements decodes to the array. */
  lemma ArrayOfElements(data: seq<u8>, pos: nat, body: seq<u8>, vs: seq<Value>, next: nat)
    requires HeaderAt(data, pos, STAR, body, CR)
    requires IsSignedDecimal(body) && SignedValue(body) == |vs| <= I64_MAX
    requires DecodeMany(data, pos + |body| + 3, |vs|) == Step(Ok(vs), next)
    ensures Decode(data, pos) == Step(Ok(Array(vs)), next)
  {
    ArrayReply(data, pos, body, CR, |vs|);
  }

  /**
   * Round trip: wherever the encoding of a value stands in the input,
   * whatever follows it, decoding there yields the value and stops right
   * after its encoding.
   */
  lemma {:induction false} RoundTrip(v: Value, data: seq<u8>, pos: nat)
    requires Encodable(v)
    requires Occurs(data, pos, Encode(v))
    ensures Decode(data, pos) == Step(Ok(v), pos + |Encode(v)|)
    decreases v, 2
  {
    if v.Array? {
      ArrayRoundTrip(v.elements, data, pos);
    } else {
      LineRoundTrip(v, data, pos);
    }
  }

  lemma {:induction false} ArrayRoundTrip(vs: seq<Value>, data: seq<u8>, pos: nat)
    requires |vs| <= I64_MAX && forall i :: 0 <= i < |vs| ==> Encodable(vs[i])
    requires Occurs(data, pos, Line(STAR, SignedDecimal(|vs|)) + EncodeAll(vs))
    ensures
      var e := Line(STAR, SignedDecimal(|vs|)) + EncodeAll(vs);
      Decode(data, pos) == Step(Ok(Array(vs)), pos + |e|)
    decreases vs, 1
  {
    var body := SignedDecimal(|vs|);
    var header := Line(STAR, body);
    SplitAt(data, pos, header, EncodeAll(vs));
    NumberLine(data, pos, STAR, |vs|);
    assert |header| == |body| + 3;
    RoundTripAll(vs, data, pos + |header|);
    ArrayOfElements(data, pos, body, vs, pos + |header| + |EncodeAll(vs)|);
  }

  lemma {:induction false} RoundTripAll(vs: seq<Value>, data: seq<u8>, pos: nat)
    requires forall i :: 0 <= i < |vs| ==> Encodable(vs[i])
    requires Occurs(data, pos, EncodeAll(vs))
    ensures DecodeMany(data, pos, |vs|) == Step(Ok(vs), pos + |EncodeAll(vs)|)
    decreases vs, 0
  {
    if vs != [] {
      var mid := pos + |Encode(vs[0])|;
      SplitFirst(vs, data, pos);
      RoundTrip(vs[0], data, pos);
      RoundTripAll(vs[1..], data, mid);
      DecodeManyCons(data, pos, vs, mid, mid + |EncodeAll(vs[1..])|);
    }
  }

  /** The encoding of a run of values is that of the first, then the rest. */
  lemma SplitFirst(vs: seq<Value>, data: seq<u8>, pos: nat)
    requires vs != [] && Occurs(data, pos, EncodeAll(vs))
    ensures Occurs(data, pos, Encode(vs[0]))
    ensures Occurs(data, pos + |Encode(vs[0])|, EncodeAll(vs[1..]))
    ensures |EncodeAll(vs)| == |Encode(vs[0])| + |EncodeAll(vs[1..])|
  {
    SplitAt(data, pos, Encode(vs[0]), EncodeAll(vs[1..]));
  }

  /** A value followed by a run of the rest is a run of all of them. */
  lemma DecodeManyCons(data: seq<u8>, pos: nat, vs: seq<Value>, mid: nat, next: nat)
    requires pos <= |data| && vs != [] && Decode(data, pos) == Step(Ok(vs[0]), mid)
    requires DecodeMany(data, mid, |vs[1..]|) == Step(Ok(vs[1..]), next)
    ensures DecodeMany(data, pos, |vs|) == Step(Ok(vs), next)
  {
    DecodeManyFirstSucceeds(data, pos, |vs|, vs[0], mid);
    assert [vs[0]] + vs[1..] == vs;
  }

  /** On its own, an encoded value decodes to itself and is read to its end. */
  lemma DecodeEncoded(v: Value)
    requires Encodable(v)
    ensures Decode(Encode(v), 0) == Step(Ok(v), |Encode(v)|)
  {
    RoundTrip(v, Encode(v), 0);
  }

  /**
   * A bulk string of any UTF-8 bytes, CR and LF included, decodes to the
   * same `String` variant as a simple string.
   */
  lemma BulkRoundTrip(s: Text, data: seq<u8>, pos: nat)
    requires |s| <= I64_MAX
    requires Occurs(data, pos, Bulk(s))
    ensures Decode(data, pos) == Step(Ok(String(s)), pos + |Bulk(s)|)
  {
    var header := Line(DOLLAR, SignedDecimal(|s|));
    assert Bulk(s) == header + (s + CRLF);
    SplitAt(data, pos, header, s + CRLF);
    NumberLine(data, pos, DOLLAR, |s|);
    BulkStringReply(data, pos, SignedDecimal(|s|), CR, s, CR, LF);
  }

  // ---------------------------------------------------------------------
  // Conversely, every value the decoder produces has a wire form
  // ---------------------------------------------------------------------

  /** The body of a header line holds no line feed. */
  lemma LineBodyHasNoLineFeed(data: seq<u8>, pos: nat)
    requires pos <= |data| && LineEnd(data, pos) >= pos + 3
    ensures LF !in data[pos + 1 .. LineEnd(data, pos) - 2]
  {
    var end := LineEnd(data, pos);
    forall i | pos + 1 <= i < end - 2
      ensures data[i] != LF
    {
    }
  }

  /** Whatever the decoder returns has a wire form. */
  lemma {:induction false} DecodedIsEncodable(data: seq<u8>, pos: nat)
    requires pos <= |data| && Decode(data, pos).result.Ok?
    ensures Encodable(Decode(data, pos).result.value)
    decreases |data| - pos, 1
  {
    DispatchedIsEncodable(data, pos, LineEnd(data, pos));
  }

  /** The same, once the header line has been read. */
  lemma {:induction false} DispatchedIsEncodable(data: seq<u8>, pos: nat, end: nat)
    requires pos <= |data| && end == LineEnd(data, pos)
    requires Dispatch(data, pos, end).result.Ok?
    ensures Encodable(Dispatch(data, pos, end).result.value)
    decreases |data| - pos, 0
  {
    var tag, body := data[pos], data[pos + 1 .. end - 2];
    if tag == PLUS || tag == MINUS {
      LineBodyHasNoLineFeed(data, pos);
    } else if tag == DOLLAR || tag == STAR {
      var length := ParseInteger(body).value;
      if length >= 0 {
        if tag == DOLLAR {
          BulkIsEncodable(data, end, length as nat);
        } else {
          ManyAreEncodable(data, end, length as nat);
        }
      }
    }
  }

  /** A bulk string's length was an i64, so it has a wire form. */
  lemma BulkIsEncodable(data: seq<u8>, pos: nat, n: nat)
    requires pos <= |data| && n <= I64_MAX && DecodeBulk(data, pos, n).result.Ok?
    ensures Encodable(DecodeBulk(data, pos, n).result.value)
  {
  }

  /** The same for every value of a successful run. */
  lemma {:induction false} ManyAreEncodable(data: seq<u8>, pos: nat, count: nat)
    requires pos <= |data| && count <= I64_MAX && DecodeMany(data, pos, count).result.Ok?
    ensures var vs := DecodeMany(data, pos, count).result.value;
      forall i :: 0 <= i < |vs| ==> Encodable(vs[i])
    decreases |data| - pos, 2, count
  {
    if count > 0 {
      var first := Decode(data, pos);
      DecodedIsEncodable(data, pos);
      ManyAreEncodable(data, first.next, count - 1);
      DecodeManyFirstSucceeds(data, pos, count, first.result.value, first.next);
    }
  }

  /**
   * The values with a wire form are exactly those the decoder can return:
   * whatever it decodes from any input round-trips through `Encode`.
   */
  lemma DecodedRoundTrips(data: seq<u8>, pos: nat)
    requires pos <= |data| && Decode(data, pos).result.Ok?
    ensures var v := Decode(data, pos).result.value;
      Decode(Encode(v), 0) == Step(Ok(v), |Encode(v)|)
  {
    DecodedIsEncodable(data, pos);
    DecodeEncoded(Decode(data, pos).result.value);
  }
}
