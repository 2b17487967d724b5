/**
 * Concrete replies, each derived from the general lemmas. Bytes are
 * written as numbers: '0' .. '9' are 48 .. 57, 'O' 'K' are 79 75,
 * "hello" is 104 101 108 108 111, "PING" is 80 73 78 71, "abc" is 97 98
 * 99, 'X' 'Y' are 88 89 and '&' is 38.
 */
module RespExamples {
  import opened Bytes
  import opened Decimal
  import opened Resp
  import opened RespProperties
  import Utf8

  /** `+OK\r\n` is the simple string "OK" and all five bytes are read. */
  lemma SimpleOk()
    ensures Decode([PLUS, 79, 75, CR, LF], 0) == Step(Ok(String([79, 75])), 5)
  {
    var data := [PLUS, 79, 75, CR, LF];
    assert HeaderAt(data, 0, PLUS, [79, 75], CR);
    SimpleStringReply(data, 0, [79, 75], CR);
  }

  /**
   * `+OK\n`: the line is still cut two bytes before its end, so the `K` is
   * lost and the value is "O".
   */
  lemma BareLineFeedDropsLastByte()
    ensures Decode([PLUS, 79, 75, LF], 0) == Step(Ok(String([79])), 4)
  {
    var data := [PLUS, 79, 75, LF];
    assert HeaderAt(data, 0, PLUS, [79], 75);
    SimpleStringReply(data, 0, [79], 75);
  }

  /** `:+7\r\n`: a leading plus sign is accepted. */
  lemma PlusSignedInteger()
    ensures Decode([COLON, PLUS, 55, CR, LF], 0) == Step(Ok(Integer(7)), 5)
  {
    var data := [COLON, PLUS, 55, CR, LF];
    assert HeaderAt(data, 0, COLON, [PLUS, 55], CR);
    assert [PLUS, 55][1..] == [55] && [55][..0] == [];
    assert IsSignedDecimal([PLUS, 55]) && SignedValue([PLUS, 55]) == 7;
    IntegerReply(data, 0, [PLUS, 55], CR);
  }

  /** `$-1\r\n` is `Null`. */
  lemma NullBulk()
    ensures Decode([DOLLAR, MINUS, 49, CR, LF], 0) == Step(Ok(Null), 5)
  {
    var data := [DOLLAR, MINUS, 49, CR, LF];
    assert HeaderAt(data, 0, DOLLAR, [MINUS, 49], CR);
    SignedDecimalValue(-1);
    assert SignedDecimal(-1) == [MINUS, 49];
    NullBulkReply(data, 0, [MINUS, 49], CR);
  }

  /** `*-1\r\n` is `NullArray`. */
  lemma NullArrayLine()
    ensures Decode([STAR, MINUS, 49, CR, LF], 0) == Step(Ok(NullArray), 5)
  {
    var data := [STAR, MINUS, 49, CR, LF];
    assert HeaderAt(data, 0, STAR, [MINUS, 49], CR);
    SignedDecimalValue(-1);
    assert SignedDecimal(-1) == [MINUS, 49];
    NullArrayReply(data, 0, [MINUS, 49], CR);
  }

  /** `$5\r\nhello\r\n` is the string "hello", the same variant as `+hello\r\n`. */
  lemma BulkHello()
    ensures Decode([DOLLAR, 53, CR, LF, 104, 101, 108, 108, 111, CR, LF], 0)
         == Step(Ok(String([104, 101, 108, 108, 111])), 11)
  {
    var data := [DOLLAR, 53, CR, LF, 104, 101, 108, 108, 111, CR, LF];
    var hello := [104, 101, 108, 108, 111];
    assert HeaderAt(data, 0, DOLLAR, [53], CR);
    assert IsSignedDecimal([53]) && SignedValue([53]) == 5;
    assert data[4 .. 11] == hello + [CR, LF];
    BulkStringReply(data, 0, [53], CR, hello, CR, LF);
  }

  /** `*2\r\n$4\r\nPING\r\n$0\r\n\r\n`: a command as a client sends it. */
  const PING_COMMAND: seq<u8> :=
    [STAR, 50, CR, LF,
     DOLLAR, 52, CR, LF, 80, 73, 78, 71, CR, LF,
     DOLLAR, 48, CR, LF, CR, LF]

  lemma PingFirstElement()
    ensures Decode(PING_COMMAND, 4) == Step(Ok(String([80, 73, 78, 71])), 14)
  {
    var data, ping := PING_COMMAND, [80, 73, 78, 71];
    assert HeaderAt(data, 4, DOLLAR, [52], CR);
    assert IsSignedDecimal([52]) && SignedValue([52]) == 4;
    assert data[8 .. 14] == ping + [CR, LF];
    BulkStringReply(data, 4, [52], CR, ping, CR, LF);
  }

  lemma PingSecondElement()
    ensures Decode(PING_COMMAND, 14) == Step(Ok(String([])), 20)
  {
    var data := PING_COMMAND;
    assert HeaderAt(data, 14, DOLLAR, [48], CR);
    assert IsSignedDecimal([48]) && SignedValue([48]) == 0;
    assert data[18 .. 20] == [] + [CR, LF];
    BulkStringReply(data, 14, [48], CR, [], CR, LF);
  }

  lemma PingHeader()
    ensures HeaderAt(PING_COMMAND, 0, STAR, [50], CR)
    ensures IsSignedDecimal([50]) && SignedValue([50]) == 2
  {
    assert PING_COMMAND[0 .. 4] == [STAR] + [50] + [CR, LF];
  }

  /** The command decodes to the array of the bulk strings "PING" and "". */
  lemma PingCommand()
    ensures Decode(PING_COMMAND, 0) == Step(Ok(Array([String([80, 73, 78, 71]), String([])])), 20)
  {
    var vs := [String([80, 73, 78, 71]), String([])];
    var bounds: seq<nat> := [4, 14, 20];
    PingHeader();
    PingFirstElement();
    PingSecondElement();
    forall i | 0 <= i < |vs|
      ensures Decode(PING_COMMAND, bounds[i]) == Step(Ok(vs[i]), bounds[i + 1])
    {
    }
    ArrayOfConsecutiveValues(PING_COMMAND, 0, [50], CR, bounds, vs);
  }

  /** `$3\r\nabcXY` fails: the two bytes after the payload are not CR LF. */
  lemma BulkBadTerminator()
    ensures Decode([DOLLAR, 51, CR, LF, 97, 98, 99, 88, 89], 0) == Step(Err(InvalidCrlf), 9)
  {
    var data := [DOLLAR, 51, CR, LF, 97, 98, 99, 88, 89];
    assert HeaderAt(data, 0, DOLLAR, [51], CR);
    assert IsSignedDecimal([51]) && SignedValue([51]) == 3;
    assert data[4 .. 9] == [97, 98, 99] + [88, 89];
    BulkStringReply(data, 0, [51], CR, [97, 98, 99], 88, 89);
  }

  /** `$5\r\nabc\r\n` fails at end of input: 7 bytes are needed and 5 remain. */
  lemma BulkTruncated()
    ensures Decode([DOLLAR, 53, CR, LF, 97, 98, 99, CR, LF], 0) == Step(Err(UnexpectedEof), 9)
  {
    var data := [DOLLAR, 53, CR, LF, 97, 98, 99, CR, LF];
    assert HeaderAt(data, 0, DOLLAR, [53], CR);
    assert IsSignedDecimal([53]) && SignedValue([53]) == 5;
    BulkStringTruncated(data, 0, [53], CR, 5);
  }

  /** `&1\r\n` fails with its unknown tag after reading the line. */
  lemma UnknownTag()
    ensures Decode([38, 49, CR, LF], 0) == Step(Err(InvalidType(38)), 4)
  {
    var data := [38, 49, CR, LF];
    assert HeaderAt(data, 0, 38, [49], CR);
    HeaderLineEnd(data, 0, 38, [49], CR);
    UnknownTypeRejected(data, 0);
  }

  /** At end of input the empty read is too short to be a header. */
  lemma EmptyInput()
    ensures Decode([], 0) == Step(Err(LineTooShort), 0)
  {
    ShortLineRejected([], 0);
  }
}
