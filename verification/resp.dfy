/**
 * The RESP (version 2 subset) decoder of `src/resp.rs`: the `Value` tree,
 * the three helpers, a reference definition `Decode` of what one call of
 * `parse_request` returns and how far it reads, and `ParseRequest`, the
 * decoder itself, proved to agree with it.
 */
module Resp {
  import opened Bytes
  import opened Decimal
  import opened Reader
  import Utf8

  /** The bytes of a Rust `String`: always well-formed UTF-8. */
  type Text = s: seq<u8> | Utf8.Valid(s)

  datatype Value =
    | Null                        // `$-1\r\n`
    | NullArray                   // `*-1\r\n`
    | String(text: Text)          // `+...` and also every `$n` bulk string
    | Error(message: Text)        // `-...`
    | Integer(number: i64)        // `:...`
    | Array(elements: seq<Value>) // `*n` followed by n values

  /**
   * Why a decode fails. The source reports an `io::Error` (its kind and
   * message are not modelled) or, for `LineTooShort` and
   * `NegativeLength`, panics.
   */
  datatype Failure =
    | LineTooShort      // header line under 3 bytes: `len - 2` overflows or `res[1..len - 2]` is out of range
    | InvalidUtf8       // `String::from_utf8` refused the payload
    | InvalidInteger    // header body is not an i64 in decimal
    | UnexpectedEof     // `read_exact` ran out of input
    | InvalidCrlf       // bulk payload not followed by CR LF
    | NegativeLength    // `$` or `*` length below -1: `length as usize` wraps
    | InvalidType(tag: u8)

  datatype Result<+T> = Ok(value: T) | Err(error: Failure)

  /** The outcome of a read from `data`, and where the cursor is left. */
  datatype Step<+T> = Step(result: Result<T>, next: nat)

  /** `parse_string` */
  function ParseString(buf: seq<u8>): (r: Result<Text>)
    ensures r.Ok? <==> Utf8.Valid(buf)
    ensures r.Ok? ==> r.value == buf
    ensures r.Err? ==> r.error == InvalidUtf8
  {
    if Utf8.Valid(buf) then Ok(buf) else Err(InvalidUtf8)
  }

  /**
   * `parse_integer`: UTF-8 validation, then `parse::<i64>`. It succeeds
   * exactly on a signed decimal in the i64 range, with its value; a failure
   * names the step that rejected the bytes.
   */
  function ParseInteger(buf: seq<u8>): (r: Result<i64>)
    ensures r.Ok? <==> IsSignedDecimal(buf) && InI64(SignedValue(buf))
    ensures r.Ok? ==> r.value as int == SignedValue(buf)
    ensures r.Err? ==> r.error == (if Utf8.Valid(buf) then InvalidInteger else InvalidUtf8)
  {
    ParseI64Correct(buf);
    DecimalIsUtf8(buf);
    match ParseString(buf)
    case Err(e) => Err(e)
    case Ok(text) =>
      match ParseI64(text)
      case None => Err(InvalidInteger)
      case Some(n) => Ok(n)
  }

  /** The text of a number always passes the UTF-8 check. */
  lemma DecimalIsUtf8(buf: seq<u8>)
    ensures IsSignedDecimal(buf) ==> Utf8.Valid(buf)
  {
    if IsSignedDecimal(buf) {
      SignedDecimalIsAscii(buf);
      Utf8.AsciiIsValid(buf);
    }
  }

  /** `is_crlf`: the two bytes are the protocol's line terminator. */
  function IsCrlf(a: u8, b: u8): (r: bool)
    ensures r <==> [a, b] == CRLF
  {
    a == CR && b == LF
  }

  /** Where the header line read at `pos` ends. */
  function LineEnd(data: seq<u8>, pos: nat): nat
    requires pos <= |data|
  {
    DelimEnd(data, pos, LF)
  }

  /**
   * One call of `parse_request` on a reader over `data` positioned at
   * `pos`: the value or failure, and where the reader is left.
   */
  function Decode(data: seq<u8>, pos: nat): (d: Step<Value>)
    requires pos <= |data|
    ensures pos <= d.next <= |data|
    ensures d.result.Ok? ==> d.next >= pos + 3
    decreases |data| - pos, 1
  {
    Dispatch(data, pos, LineEnd(data, pos))
  }

  /**
   * What `parse_request` does once it has read the header line
   * `data[pos..end]`.
   */
  function Dispatch(data: seq<u8>, pos: nat, end: nat): (d: Step<Value>)
    requires pos <= end <= |data|
    ensures end <= d.next <= |data|
    ensures d.result.Ok? ==> d.next >= pos + 3
    decreases |data| - pos, 0
  {
    if end - pos < 3 then Step(Err(LineTooShort), end)
    else
      var tag := data[pos];
      var body := data[pos + 1 .. end - 2];
      if tag == PLUS then
        match ParseString(body)
        case Ok(s) => Step(Ok(String(s)), end)
        case Err(e) => Step(Err(e), end)
      else if tag == MINUS then
        match ParseString(body)
        case Ok(s) => Step(Ok(Error(s)), end)
        case Err(e) => Step(Err(e), end)
      else if tag == COLON then
        match ParseInteger(body)
        case Ok(n) => Step(Ok(Integer(n)), end)
        case Err(e) => Step(Err(e), end)
      else if tag == DOLLAR then
        match ParseInteger(body)
        case Err(e) => Step(Err(e), end)
        case Ok(length) =>
          if length == -1 then Step(Ok(Null), end)
          else if length < -1 then Step(Err(NegativeLength), end)
          else DecodeBulk(data, end, length as nat)
      else if tag == STAR then
        match ParseInteger(body)
        case Err(e) => Step(Err(e), end)
        case Ok(length) =>
          if length == -1 then Step(Ok(NullArray), end)
          else if length < -1 then Step(Err(NegativeLength), end)
          else DecodeArray(data, end, length as nat)
      else Step(Err(InvalidType(tag)), end)
  }

  /**
   * The payload of a bulk string of `n` bytes that starts at `pos`: `n`
   * bytes and CR LF are read, then the `n` bytes must be UTF-8.
   */
  function DecodeBulk(data: seq<u8>, pos: nat, n: nat): (d: Step<Value>)
    requires pos <= |data|
    ensures pos <= d.next <= |data|
    ensures d.result.Ok? ==> d.next == pos + n + 2
  {
    if |data| - pos < n + 2 then Step(Err(UnexpectedEof), |data|)
    else
      var block := data[pos .. pos + n + 2];
      if !IsCrlf(block[n], block[n + 1]) then Step(Err(InvalidCrlf), pos + n + 2)
      else
        match ParseString(block[..n])
        case Ok(s) => Step(Ok(String(s)), pos + n + 2)
        case Err(e) => Step(Err(e), pos + n + 2)
  }

  /** The elements of an array of `count` values that start at `pos`. */
  function DecodeArray(data: seq<u8>, pos: nat, count: nat): (d: Step<Value>)
    requires pos <= |data|
    ensures pos <= d.next <= |data|
    ensures d.result.Ok? ==> d.result.value.Array? && |d.result.value.elements| == count
    decreases |data| - pos, 2, count + 1
  {
    var items := DecodeMany(data, pos, count);
    match items.result
    case Ok(vs) => Step(Ok(Array(vs)), items.next)
    case Err(e) => Step(Err(e), items.next)
  }

  /**
   * `count` values decoded one after another from `pos`; the first failure
   * ends the sequence and is the result.
   */
  function DecodeMany(data: seq<u8>, pos: nat, count: nat): (d: Step<seq<Value>>)
    requires pos <= |data|
    ensures pos <= d.next <= |data|
    ensures d.result.Ok? ==> |d.result.value| == count
    decreases |data| - pos, 2, count
  {
    if count == 0 then Step(Ok([]), pos)
    else
      var first := Decode(data, pos);
      match first.result
      case Err(e) => Step(Err(e), first.next)
      case Ok(v) => Prepend([v], DecodeMany(data, first.next, count - 1))
  }

  /** `vs` followed by whatever `rest` decoded. */
  function Prepend(vs: seq<Value>, rest: Step<seq<Value>>): Step<seq<Value>> {
    match rest.result
    case Ok(ws) => Step(Ok(vs + ws), rest.next)
    case Err(e) => rest
  }

  lemma DecodeManyFirstFails(data: seq<u8>, pos: nat, count: nat)
    requires pos <= |data| && count > 0 && Decode(data, pos).result.Err?
    ensures DecodeMany(data, pos, count) == Step(Err(Decode(data, pos).result.error), Decode(data, pos).next)
  {
  }

  lemma DecodeManyFirstSucceeds(data: seq<u8>, pos: nat, count: nat, v: Value, next: nat)
    requires pos <= |data| && count > 0 && Decode(data, pos) == Step(Ok(v), next)
    ensures next <= |data|
    ensures DecodeMany(data, pos, count) == Prepend([v], DecodeMany(data, next, count - 1))
  {
  }

  lemma PrependNothing(rest: Step<seq<Value>>)
    ensures Prepend([], rest) == rest
  {
    if rest.result.Ok? {
      assert [] + rest.result.value == rest.result.value;
    }
  }

  lemma PrependTwice(vs: seq<Value>, ws: seq<Value>, rest: Step<seq<Value>>)
    ensures Prepend(vs, Prepend(ws, rest)) == Prepend(vs + ws, rest)
  {
    if rest.result.Ok? {
      assert vs + (ws + rest.result.value) == (vs + ws) + rest.result.value;
    }
  }

  /** `parse_request` */
  method ParseRequest(reader: BufReader) returns (r: Result<Value>)
    requires reader.Valid()
    modifies reader
    ensures reader.Valid()
    ensures Decode(reader.data, old(reader.pos)) == Step(r, reader.pos)
    decreases |reader.data| - reader.pos, 0
  {
    ghost var start := reader.pos;
    var res := reader.ReadUntil(LF);
    ghost var end := reader.pos;
    assert Decode(reader.data, start) == Dispatch(reader.data, start, end);
    var len := |res|;
    if len < 3 {
      return Err(LineTooShort);
    }
    var bytes := res[1..len - 2];
    var tag := res[0];
    assert bytes == reader.data[start + 1 .. end - 2] && tag == reader.data[start];
    if tag == PLUS {
      match ParseString(bytes)
      case Ok(s) => r := Ok(String(s));
      case Err(e) => r := Err(e);
    } else if tag == MINUS {
      match ParseString(bytes)
      case Ok(s) => r := Ok(Error(s));
      case Err(e) => r := Err(e);
    } else if tag == COLON {
      match ParseInteger(bytes)
      case Ok(n) => r := Ok(Integer(n));
      case Err(e) => r := Err(e);
    } else if tag == DOLLAR {
      var parsed := ParseInteger(bytes);
      if parsed.Err? {
        return Err(parsed.error);
      }
      var length := parsed.value;
      if length == -1 {
        return Ok(Null);
      }
      if length < -1 {
        return Err(NegativeLength);
      }
      assert Dispatch(reader.data, start, end) == DecodeBulk(reader.data, end, length as nat);
      r := ReadBulk(reader, length as int);
    } else if tag == STAR {
      var parsed := ParseInteger(bytes);
      if parsed.Err? {
        return Err(parsed.error);
      }
      var length := parsed.value;
      if length == -1 {
        return Ok(NullArray);
      }
      if length < -1 {
        return Err(NegativeLength);
      }
      assert Dispatch(reader.data, start, end) == DecodeArray(reader.data, end, length as nat);
      r := ReadArray(reader, length as int);
    } else {
      r := Err(InvalidType(tag));
    }
  }

  /** The `$` branch of `parse_request` once the length `n` is known. */
  method ReadBulk(reader: BufReader, n: nat) returns (r: Result<Value>)
    requires reader.Valid()
    modifies reader
    ensures reader.Valid()
    ensures DecodeBulk(reader.data, old(reader.pos), n) == Step(r, reader.pos)
  {
    var buf := new u8[n + 2];
    var ok := reader.ReadExact(buf);
    if !ok {
      return Err(UnexpectedEof);
    }
    if !IsCrlf(buf[n], buf[n + 1]) {
      return Err(InvalidCrlf);
    }
    var payload := buf[..n];
    match ParseString(payload)
    case Ok(s) => r := Ok(String(s));
    case Err(e) => r := Err(e);
  }

  /**
   * The `*` branch of `parse_request` once the length `count` is known:
   * `count` recursive calls, the first failure aborting the array.
   */
  method ReadArray(reader: BufReader, count: nat) returns (r: Result<Value>)
    requires reader.Valid()
    modifies reader
    ensures reader.Valid()
    ensures DecodeArray(reader.data, old(reader.pos), count) == Step(r, reader.pos)
    decreases |reader.data| - reader.pos, 1
  {
    ghost var data, first := reader.data, reader.pos;
    var elements: seq<Value> := [];
    PrependNothing(DecodeMany(data, first, count));
    for i := 0 to count
      invariant reader.Valid() && first <= reader.pos
      invariant DecodeMany(data, first, count) == Prepend(elements, DecodeMany(data, reader.pos, count - i))
    {
      ghost var here := reader.pos;
      var element := ParseRequest(reader);
      if element.Err? {
        DecodeManyFirstFails(data, here, count - i);
        return Err(element.error);
      }
      ghost var rest := DecodeMany(data, reader.pos, count - i - 1);
      DecodeManyFirstSucceeds(data, here, count - i, element.value, reader.pos);
      PrependTwice(elements, [element.value], rest);
      elements := elements + [element.value];
    }
    assert elements + [] == elements;
    r := Ok(Array(elements));
  }
}
