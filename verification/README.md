# RESP request decoder

A Dafny model of the decoder for RESP (the Redis serialization protocol,
version 2 subset) in `src/resp.rs`. The decoder reads from a buffered reader.

- **Input:** the bytes on the connection, an immutable `seq<u8>`.
- **Reader:** `Reader.BufReader` is a class over those bytes. Its cursor
  field `pos` is advanced by `ReadUntil` (`read_until`) and `ReadExact`
  (`read_exact`).
- **Reply tree:** `Resp.Value` is the tree `parse_request` returns. A string
  payload is a `Text`: a byte sequence that is well-formed UTF-8, which is
  exactly what a Rust `String` holds.
- **Reference function:** `Resp.Decode(data, pos)` says what one call of
  `parse_request` returns and where it leaves the reader. It does so one
  reply type at a time:
  - `+` gives a simple string, `-` an error, `:` an integer;
  - `$` gives a bulk string, or `Null` for `$-1`;
  - `*` gives an array, or `NullArray` for `*-1`;
  - any other first byte is rejected.
- **The decoder:** `Resp.ParseRequest` is the decoder itself, a recursive
  method on a `BufReader`. It fills a fixed-size buffer for a bulk payload.
  For an array it pushes the elements in a loop. It is proved to do
  exactly what `Decode` says, including the final reader position.
- **Properties:**
  - `RespProperties` states the behaviour of `Decode` on the wire, reply by
    reply.
  - `RespEncoding` proves a round trip through a wire form. A string goes
    as a simple string, or as a bulk string when it holds a line feed.
    Every value has a wire form except an error holding a line feed, a
    string holding a line feed whose length does not fit in an i64, an
    array whose length does not fit in an i64, and an array holding any of
    these. Conversely, every value the decoder returns has one, and it
    decodes back to that value.
  - `RespExamples` works through concrete requests.
- **Helpers:**
  - `Utf8` defines well-formed UTF-8 following the grammar in section 4 of RFC 3629.
  - `Decimal` models `str::parse::<i64>`.

The code is followed where it differs from a plain reading of the
protocol. The differences that show in the model:

- **Header terminator not checked:** a header line is cut two bytes before
  its end, and nothing checks that those two bytes are CR LF. So `+OK\n`
  decodes to the string "O" (`RespExamples.BareLineFeedDropsLastByte`). At
  the end of input, a last line with no line feed is accepted too
  (`RespProperties.UnterminatedLastLine`).
- **Bulk strings:** a bulk string decodes to the same `String` variant as a
  simple string, and its payload must be UTF-8.
- **Leading plus sign:** a number in a header may have a leading `+`
  (`RespExamples.PlusSignedInteger`).
- **Panics become errors:**
  - A header line under three bytes, including the empty read at end of
    input, makes the source panic: for 0 or 1 bytes `len - 2` overflows,
    and for 2 bytes the slice `res[1..0]` is out of range. The model
    returns `LineTooShort` instead.
  - A `$` or `*` length below -1 is cast to `usize`, which wraps. The model
    returns `NegativeLength` instead.

  In both cases no value is returned, which is what the panic amounts to
  for the caller.
- **Short `read_exact`:** when too few bytes remain, `read_exact` fails with
  `UnexpectedEof`. It has consumed what was left by then, so the model
  moves the cursor to the end of the input.

## Model

| member | source | states |
|---|---|---|
| Resp.ParseString | src/resp.rs:20-22 | succeeds exactly on well-formed UTF-8, returning the same bytes, and otherwise fails with `InvalidUtf8` |
| Resp.ParseInteger | src/resp.rs:20-27 | succeeds exactly when the bytes are a signed decimal (`[+-]?[0-9]+`) in the i64 range, with that decimal's value; otherwise fails with `InvalidUtf8` when the bytes are not UTF-8 (the `?` on `parse_string`) and `InvalidInteger` when they are |
| Resp.DecimalIsUtf8 | src/resp.rs:25 | the UTF-8 step of `parse_integer` never rejects a signed decimal |
| Decimal.ParseI64 | src/resp.rs:26 | the overflow-checked i64 parser accepts only signed decimals, and gives a negative result only after a leading minus |
| Decimal.ParseI64Correct | src/resp.rs:26 | the digit-by-digit, overflow-checked i64 parser returns `Some(v)` exactly on a signed decimal whose value `v` is in range; the empty string, a lone sign and overflow give `None` |
| Decimal.ParseI64SignedDecimal | src/resp.rs:26 | every i64 written in decimal parses back to itself |
| Decimal.SignedDecimalValue | src/resp.rs:26 | the decimal text of any integer is a signed decimal denoting that integer |
| Resp.IsCrlf | src/resp.rs:29-31 | true exactly when the two bytes are CR LF |
| Reader.DelimEnd | src/resp.rs:35 | a `read_until` from `from` ends right after the first delimiter, or at the end of input when there is none; it consumes at least one byte unless the input is exhausted |
| Reader.BufReader.constructor | src/resp.rs:33 | a reader over the given bytes, positioned at the start |
| Reader.BufReader.ReadUntil | src/resp.rs:35 | moves the cursor to `DelimEnd` and returns exactly the bytes passed over |
| Reader.BufReader.ReadExact | src/resp.rs:53 | fills the buffer and advances by its length exactly when that many bytes remain; otherwise fails and leaves the cursor at the end of input |
| Resp.Decode | src/resp.rs:33-81 | one call never reads past the input, and a successful one consumes at least a three-byte header line |
| Resp.Dispatch | src/resp.rs:37-79 | acting on a header line never moves the cursor back before the line's end, and a success consumes at least three bytes |
| Resp.DecodeBulk | src/resp.rs:49-62 | a bulk payload read either fails or consumes exactly n + 2 bytes |
| Resp.DecodeArray | src/resp.rs:64-74 | a successful `*n` decode yields an `Array` of exactly n elements |
| Resp.DecodeMany | src/resp.rs:71-73 | a successful run of n decodes yields exactly n values |
| Resp.DecodeManyFirstFails | src/resp.rs:72 | the `?` on an element: when the first element fails, the run fails with its error and position |
| Resp.DecodeManyFirstSucceeds | src/resp.rs:71-73 | when the first element decodes, the run is that element followed by the rest, which starts where the element stopped |
| Resp.ParseRequest | src/resp.rs:33-81 | the decoder returns exactly `Decode`'s result for the reader's starting position and leaves the cursor exactly where `Decode` says |
| Resp.ReadBulk | src/resp.rs:49-62 | the bulk branch (buffer of n + 2 bytes, `read_exact`, CR LF check, truncation to n, UTF-8 check) agrees with `DecodeBulk`, result and cursor |
| Resp.ReadArray | src/resp.rs:70-74 | the element loop agrees with `DecodeArray`, result and cursor; the loop invariant is that the elements pushed so far followed by the remaining run make up the whole run |
| RespProperties.HeaderLineEnd | src/resp.rs:35-38 | on a header line `tag body x LF` with no LF inside, the line read ends right after the LF, the tag is its first byte and the body lies between tag and the last two bytes |
| RespProperties.DecodeHeader | src/resp.rs:35-39 | decoding reads exactly that header line, then dispatches on its tag |
| RespProperties.SimpleStringReply | src/resp.rs:40 | `+body..` yields `String(body)` when the body is UTF-8 and `InvalidUtf8` otherwise; either way only the header line is consumed |
| RespProperties.ErrorReply | src/resp.rs:41 | `-body..` yields `Error(body)` when the body is UTF-8 and `InvalidUtf8` otherwise; either way only the header line is consumed |
| RespProperties.IntegerReply | src/resp.rs:42 | `:body..` yields `Integer(v)` exactly when the body is a signed decimal with value v in the i64 range, and otherwise `InvalidUtf8` for a non-UTF-8 body, `InvalidInteger` for any other; only the line is consumed |
| RespProperties.LengthNotAnInteger | src/resp.rs:44 | a `$` or `*` header whose body is not an i64 fails after the line, with `InvalidUtf8` for a non-UTF-8 body and `InvalidInteger` otherwise |
| RespProperties.NullBulkReply | src/resp.rs:44-47 | `$-1` yields `Null` and consumes nothing after the header line |
| RespProperties.NullArrayReply | src/resp.rs:65-68 | `*-1` yields `NullArray` and consumes nothing after the header line |
| RespProperties.NegativeLengthRejected | src/resp.rs:50 | a `$` or `*` length below -1 fails with `NegativeLength` after the line |
| RespProperties.BulkStringReply | src/resp.rs:43-62 | after `$n` with n >= 0 and n + 2 available bytes: the result is `InvalidCrlf` when the last two are not CR LF, then `InvalidUtf8` when the first n are not UTF-8, and otherwise `String` of exactly those n bytes; header + n + 2 bytes are consumed in every case |
| RespProperties.BulkStringTruncated | src/resp.rs:53 | after `$n`, fewer than n + 2 remaining bytes give `UnexpectedEof` and drain the input |
| RespProperties.BulkHeader | src/resp.rs:43-53 | after a `$n` header with n >= 0 decoding continues with the payload read right after the line |
| RespProperties.BulkPayload | src/resp.rs:53-62 | the payload read with all n + 2 bytes present: CR LF check, then UTF-8 check, then the n bytes as a `String`, consuming n + 2 bytes |
| RespProperties.ArrayReply | src/resp.rs:64-74 | after a `*n` header with n >= 0 decoding continues with n element decodes right after the line |
| RespProperties.UnknownTypeRejected | src/resp.rs:76-79 | any tag byte other than `+ - : $ *` fails with `InvalidType(tag)` after consuming only the header line |
| RespProperties.ShortLineRejected | src/resp.rs:37-38 | a header line under three bytes, in particular the empty read at end of input, fails with `LineTooShort` |
| RespProperties.UnterminatedLastLine | src/resp.rs:35-40 | a `+` line at end of input without LF is still decoded, its last two bytes dropped unchecked, consuming all remaining input |
| RespProperties.Bounds | src/resp.rs:71-73 | the starting positions of successive element decodes: n + 1 positions, the first at the run's start |
| RespProperties.ConsecutiveDecodeMany | src/resp.rs:71-73 | values that decode one after another, each where the previous stopped, decode together as a run, in that order |
| RespProperties.DecodeManyConsecutive | src/resp.rs:71-73 | conversely, every value of a successful run was decoded exactly where the previous one stopped |
| RespProperties.DecodeManyStopsAtFailure | src/resp.rs:72 | if the element after k good ones fails, any longer run fails with that element's error and position: no partial result |
| RespProperties.ArrayOfConsecutiveValues | src/resp.rs:64-74 | `*n` followed by n consecutive values is `Array` of exactly those values, ending where the last one ends |
| RespProperties.ArrayElementsInStreamOrder | src/resp.rs:64-74 | a successful `*n` decode has exactly n elements, each the value decoded at the position where the previous one stopped |
| RespProperties.ArrayFailsAtFirstBadElement | src/resp.rs:71-73 | when an element of a `*n` array fails, the whole decode fails with that element's error |
| RespEncoding.RoundTrip | src/resp.rs:33-81 | wherever the wire form of an encodable value appears in the input, whatever follows it, decoding there yields that value and stops right after its wire form |
| RespEncoding.RoundTripAll | src/resp.rs:70-74 | the wire forms of n values one after another decode as a run of exactly those n values |
| RespEncoding.LineRoundTrip | src/resp.rs:40-62 | every value that is not an array decodes back from its wire form: strings, errors, integers, `$-1` and `*-1` |
| RespEncoding.StringRoundTrip | src/resp.rs:40-62 | a string decodes back from its wire form: `+` line when it holds no LF, bulk otherwise |
| RespEncoding.ArrayRoundTrip | src/resp.rs:64-74 | an array's wire form decodes back to the array |
| RespEncoding.ArrayOfElements | src/resp.rs:64-74 | a `*n` header followed by a successful run of n values decodes to the array of those values |
| RespEncoding.DecodeEncoded | src/resp.rs:33-81 | an encodable value's wire form on its own decodes to the value and is read to its end |
| RespEncoding.DecodedIsEncodable | src/resp.rs:33-81 | every value the decoder returns has a wire form: a `+`/`-` body holds no LF, and bulk and array lengths came from an i64 |
| RespEncoding.DispatchedIsEncodable | src/resp.rs:37-79 | the same for the value returned once the header line has been read |
| RespEncoding.ManyAreEncodable | src/resp.rs:71-73 | every value of a successful run of element decodes has a wire form |
| RespEncoding.DecodedRoundTrips | src/resp.rs:33-81 | whatever the decoder returns, from any input, decodes back from its own wire form, read to its end |
| RespEncoding.BulkRoundTrip | src/resp.rs:43-62 | `$n CR LF payload CR LF` decodes to `String(payload)` for any UTF-8 payload, CR and LF included, consuming exactly that form |
| RespExamples.SimpleOk | src/resp.rs:40 | `+OK\r\n` is `String("OK")`, five bytes read |
| RespExamples.BareLineFeedDropsLastByte | src/resp.rs:37-40 | `+OK\n` is `String("O")`: the unchecked terminator costs the `K` |
| RespExamples.PlusSignedInteger | src/resp.rs:42 | `:+7\r\n` is `Integer(7)` |
| RespExamples.NullBulk | src/resp.rs:44-47 | `$-1\r\n` is `Null` |
| RespExamples.NullArrayLine | src/resp.rs:65-68 | `*-1\r\n` is `NullArray` |
| RespExamples.BulkHello | src/resp.rs:43-62 | `$5\r\nhello\r\n` is `String("hello")`, eleven bytes read |
| RespExamples.PingFirstElement | src/resp.rs:43-62 | the first element of the PING command, `$4\r\nPING\r\n`, is `String("PING")` |
| RespExamples.PingSecondElement | src/resp.rs:43-62 | the empty bulk string `$0\r\n\r\n` is `String("")` |
| RespExamples.PingHeader | src/resp.rs:35-38 | `*2\r\n` is a header line with body `2` |
| RespExamples.PingCommand | src/resp.rs:64-74 | `*2\r\n$4\r\nPING\r\n$0\r\n\r\n` is the array of "PING" and "", all twenty bytes read |
| RespExamples.BulkBadTerminator | src/resp.rs:53-59 | `$3\r\nabcXY` fails with `InvalidCrlf` after reading all nine bytes |
| RespExamples.BulkTruncated | src/resp.rs:53 | `$5\r\nabc\r\n` fails with `UnexpectedEof` at end of input |
| RespExamples.UnknownTag | src/resp.rs:76-79 | `&1\r\n` fails with `InvalidType('&')` after the line |
| RespExamples.EmptyInput | src/resp.rs:35-38 | decoding empty input fails with `LineTooShort` |
| Utf8.AsciiIsValid | src/resp.rs:21 | ASCII bytes are well-formed UTF-8 |

## Left out

- `src/main.rs`: the TCP accept loop, the per-connection calls and the
  printing are I/O plumbing and are not part of this model.
- I/O errors of the underlying stream: `read_until` and `read_exact` are
  modelled over an in-memory byte sequence that cannot fail, except by
  running out.
- Blocking, partial reads and the buffering inside `BufReader`: a reader
  is a byte sequence and a cursor.
- Error kinds and messages: every `io::Error` becomes one `Failure`
  constructor naming the cause, without the `ErrorKind` or the formatted
  text.
- Resp.ParseRequest: a huge `$` or `*` length is modelled as a read that
  runs out of input. The source may instead abort earlier, when it fails to
  allocate the `buf.resize` or `Vec::with_capacity` of that size.
- Resp.ReadBulk: after a short `read_exact` the model does not say what the
  buffer holds. Only the failure and the drained input are stated, and the
  source discards the buffer anyway.
- Recursion depth: the source's recursion on nested arrays can overflow
  its stack. The model has no such limit.
- RespEncoding.Encode: there is no encoder in the source. The wire form is
  a definition used only to state what the decoder accepts. It is not a
  model of any code.
