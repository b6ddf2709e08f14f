/**
 `Writer`, `Reader` and the four codec functions as the C++ runs them: the writer appends to `data`, the
 reader moves `offset`, and a request's messages are written and read in a loop.
 A thrown exception is an `Err`.
 */
module LlmCodecCode {
  import opened Bytes
  import opened Messages
  import opened LlmTypes
  import opened LlmCodec
  import Laws = LlmCodecLaws

  class Writer {
    var data: bytes

    constructor ()
      ensures data == []
    {
      data := [];
    }

    method U8(value: byte)
      modifies this
      ensures data == old(data) + [value]
    {
      data := data + [value];
    }

    method U32(value: u32)
      modifies this
      ensures data == old(data) + LittleEndian(4, value)
    {
      data := data + [value % 256];
      data := data + [value / 0x100 % 256];
      data := data + [value / 0x1_0000 % 256];
      data := data + [value / 0x100_0000 % 256];
      ShiftedDigits(value);
    }

    method F32(raw: u32)
      modifies this
      ensures data == old(data) + LittleEndian(4, raw)
    {
      U32(raw);
    }

    method Text(value: bytes)
      modifies this
      ensures data == old(data) + Str(value)
    {
      U32(Bytes.U32(|value|));
      data := data + value;
    }
  }

  /** `ok` is false where the C++ throws. */
  class Reader {
    const data: bytes
    var offset: nat

    constructor (data: bytes)
      ensures this.data == data && offset == 0
    {
      this.data := data;
      offset := 0;
    }

    /** `Reader::require`. */
    predicate Available(count: nat)
      reads this
    {
      offset + count <= |data|
    }

    method U8() returns (ok: bool, value: byte)
      modifies this
      ensures ok <==> ReadByte(data, old(offset)).Got?
      ensures ok ==> ReadByte(data, old(offset)) == Got(value, offset)
    {
      if !Available(1) {
        return false, 0;
      }
      offset := offset + 1;
      return true, data[offset - 1];
    }

    method U32() returns (ok: bool, value: u32)
      modifies this
      ensures ok <==> ReadU32(data, old(offset)).Got?
      ensures ok ==> ReadU32(data, old(offset)) == Got(value, offset)
    {
      if !Available(4) {
        return false, 0;
      }
      WeighedDigits(data[offset..offset + 4]);
      Laws.U32Exact(data, offset, 0);
      value := Join4(data[offset + 3], data[offset + 2], data[offset + 1], data[offset]);
      offset := offset + 4;
      return true, value;
    }

    method Text() returns (ok: bool, value: bytes)
      modifies this
      ensures ok <==> ReadStr(data, old(offset)).Got?
      ensures ok ==> ReadStr(data, old(offset)) == Got(value, offset)
    {
      var sizeOk, size := U32();
      if !sizeOk || !Available(size) {
        return false, [];
      }
      value := data[offset..offset + size];
      offset := offset + size;
      return true, value;
    }
  }

  method WriteTurn(writer: Writer, turn: Turn)
    modifies writer
    ensures writer.data == old(writer.data) + TurnBytes(turn)
  {
    writer.U8(RoleByte(turn.role));
    writer.Text(turn.content);
    Assoc(old(writer.data), [RoleByte(turn.role)], Str(turn.content));
  }

  method WriteTurns(writer: Writer, turns: seq<Turn>)
    modifies writer
    ensures writer.data == old(writer.data) + TurnsBytes(turns)
  {
    hide TurnBytes;
    assert turns[0..] == turns;
    for i := 0 to |turns|
      invariant writer.data + TurnsBytes(turns[i..]) == old(writer.data) + TurnsBytes(turns)
    {
      Assoc(writer.data, TurnBytes(turns[i]), TurnsBytes(turns[i + 1..]));
      assert turns[i..][1..] == turns[i + 1..];
      WriteTurn(writer, turns[i]);
    }
  }

  method WriteTriple(writer: Writer, x: u32, y: u32, z: u32)
    modifies writer
    ensures writer.data == old(writer.data) + Triple(x, y, z)
  {
    hide LittleEndian;
    writer.U32(x);
    writer.U32(y);
    writer.U32(z);
  }

  method WriteSampling(writer: Writer, c: Config)
    modifies writer
    ensures writer.data == old(writer.data) + Triple(c.maxTokens, c.temperature, c.topP)
  {
    hide LittleEndian;
    writer.U32(c.maxTokens);
    writer.F32(c.temperature);
    writer.F32(c.topP);
  }

  method WriteConfig(writer: Writer, c: Config)
    modifies writer
    ensures writer.data == old(writer.data) + ConfigBytes(c, StreamByte(c.stream))
  {
    hide Triple, LittleEndian;
    WriteSampling(writer, c);
    writer.U32(c.seed);
    writer.U32(c.timeoutMs);
    writer.U8(if c.stream then 1 else 0);
  }

  method WritePreamble(writer: Writer, magic: bytes, id: bytes)
    modifies writer
    ensures writer.data == old(writer.data) + Preamble(magic, id)
  {
    hide Str;
    writer.Text(magic);
    writer.Text(id);
    Assoc(old(writer.data), Str(magic), Str(id));
  }

  method WriteRequest(r: Request, source: bytes, target: bytes) returns (m: Message)
    ensures m == EncodeRequest(r, source, target)
  {
    hide Preamble, ConfigBytes, TurnsBytes;
    var writer := new Writer();
    WritePreamble(writer, REQUEST_MAGIC, r.requestId);
    assert writer.data == Preamble(REQUEST_MAGIC, r.requestId);
    WriteConfig(writer, r.config);
    ghost var head := writer.data;
    writer.U32(Bytes.U32(|r.prompt|));
    WriteTurns(writer, r.prompt);
    Assoc(head, LittleEndian(4, Bytes.U32(|r.prompt|)), TurnsBytes(r.prompt));
    return EventMessage(0, source, target, Event(REQUEST_EVENT, writer.data));
  }

  method WriteReply(writer: Writer, r: Reply)
    modifies writer
    ensures writer.data == old(writer.data) + ReplyBytes(r, StatusByte(r.status))
  {
    hide Str, Triple;
    writer.U8(StatusByte(r.status));
    writer.Text(r.text);
    WriteTriple(writer, r.promptTokens, r.completionTokens, r.elapsedMs);
    writer.Text(r.errorMessage);
  }

  method WriteResponse(r: Response, source: bytes, target: bytes) returns (m: Message)
    ensures m == EncodeResponse(r, source, target)
  {
    hide Preamble, ReplyBytes;
    var writer := new Writer();
    WritePreamble(writer, RESPONSE_MAGIC, r.requestId);
    assert writer.data == Preamble(RESPONSE_MAGIC, r.requestId);
    WriteReply(writer, r.result);
    return EventMessage(0, source, target, Event(RESPONSE_EVENT, writer.data));
  }

  /** The turns read so far, in front of those still to come. */
  function Prepend(done: seq<Turn>, rest: Parsed<seq<Turn>, CodecError>): Parsed<seq<Turn>, CodecError> {
    match rest
    case Fail(e) => Fail(e)
    case Got(ts, next) => Got(done + ts, next)
  }

  method ReadTurnsLoop(reader: Reader, count: u32) returns (r: Result<seq<Turn>, CodecError>)
    modifies reader
    ensures match ReadTurns(reader.data, old(reader.offset), count)
            case Got(ts, next) => r == Ok(ts) && reader.offset == next
            case Fail(e) => r == Err(e)
  {
    var turns := [];
    PrependNothing(ReadTurns(reader.data, reader.offset, count));
    for i := 0 to count
      invariant ReadTurns(reader.data, old(reader.offset), count)
             == Prepend(turns, ReadTurns(reader.data, reader.offset, count - i))
    {
      ghost var o := reader.offset;
      var roleOk, roleByte := reader.U8();
      if !roleOk {
        return Err(Truncated);
      }
      var role := RoleOf(roleByte);
      if role.None? {
        return Err(BadRole);
      }
      var contentOk, content := reader.Text();
      if !contentOk {
        return Err(Truncated);
      }
      var t := Turn(role.value, content);
      assert ReadTurn(reader.data, o) == Got(t, reader.offset);
      PrependMore(turns, t, ReadTurns(reader.data, reader.offset, count - i - 1));
      turns := turns + [t];
    }
    assert turns + [] == turns;
    return Ok(turns);
  }

  lemma PrependNothing(rest: Parsed<seq<Turn>, CodecError>)
    ensures Prepend([], rest) == rest
  {
    if rest.Got? {
      assert [] + rest.value == rest.value;
    }
  }

  lemma PrependMore(done: seq<Turn>, t: Turn, rest: Parsed<seq<Turn>, CodecError>)
    ensures Prepend(done + [t], rest) == Prepend(done, Prepend([t], rest))
  {
    if rest.Got? {
      assert done + [t] + rest.value == done + ([t] + rest.value);
    }
  }

  method ReadPreambleText(reader: Reader, magic: bytes) returns (r: Result<bytes, CodecError>)
    requires reader.offset == 0
    modifies reader
    ensures match ReadPreamble(reader.data, magic)
            case Got(id, next) => r == Ok(id) && reader.offset == next
            case Fail(e) => r == Err(e)
  {
    var ok, m := reader.Text();
    if !ok {
      return Err(Truncated);
    }
    if m != magic {
      return Err(BadMagic);
    }
    var idOk, id := reader.Text();
    if !idOk {
      return Err(Truncated);
    }
    return Ok(id);
  }

  /** Three words; `f32` reads a word and keeps its bits. */
  method ReadTripleWords(reader: Reader) returns (ok: bool, x: u32, y: u32, z: u32)
    modifies reader
    ensures ok <==> ReadTriple(reader.data, old(reader.offset)).Got?
    ensures ok ==> ReadTriple(reader.data, old(reader.offset)) == Got((x, y, z), reader.offset)
  {
    y, z := 0, 0;
    ok, x := reader.U32();
    if ok {
      ok, y := reader.U32();
    }
    if ok {
      ok, z := reader.U32();
    }
  }

  method ParseRequest(m: Message) returns (r: Result<Request, CodecError>)
    ensures match DecodeRequest(m)
            case Got(request, _) => r == Ok(request)
            case Fail(e) => r == Err(e)
  {
    if m.event.name != REQUEST_EVENT {
      return Err(WrongEvent);
    }
    var reader := new Reader(m.event.payload);
    var preamble := ReadPreambleText(reader, REQUEST_MAGIC);
    if preamble.Err? {
      return Err(preamble.error);
    }
    hide ReadPreamble;
    var tripleOk, maxTokens, temperature, topP := ReadTripleWords(reader);
    if !tripleOk {
      return Err(Truncated);
    }
    hide ReadTriple;
    var seedOk, seed := reader.U32();
    if !seedOk {
      return Err(Truncated);
    }
    var timeoutOk, timeoutMs := reader.U32();
    if !timeoutOk {
      return Err(Truncated);
    }
    var flagOk, flag := reader.U8();
    if !flagOk {
      return Err(Truncated);
    }
    var countOk, count := reader.U32();
    if !countOk {
      return Err(Truncated);
    }
    var turns := ReadTurnsLoop(reader, count);
    if turns.Err? {
      return Err(turns.error);
    }
    return Ok(Request(preamble.value, turns.value, Config(maxTokens, temperature, topP, seed, timeoutMs, flag != 0)));
  }

  method ParseResponse(m: Message) returns (r: Result<Response, CodecError>)
    ensures match DecodeResponse(m)
            case Got(response, _) => r == Ok(response)
            case Fail(e) => r == Err(e)
  {
    if m.event.name != RESPONSE_EVENT {
      return Err(WrongEvent);
    }
    var reader := new Reader(m.event.payload);
    var preamble := ReadPreambleText(reader, RESPONSE_MAGIC);
    if preamble.Err? {
      return Err(preamble.error);
    }
    hide ReadPreamble;
    var statusOk, status := reader.U8();
    if !statusOk {
      return Err(Truncated);
    }
    var textOk, text := reader.Text();
    if !textOk {
      return Err(Truncated);
    }
    var tokensOk, promptTokens, completionTokens, elapsedMs := ReadTripleWords(reader);
    if !tokensOk {
      return Err(Truncated);
    }
    hide ReadTriple, ReadStr;
    var errorOk, error := reader.Text();
    if !errorOk {
      return Err(Truncated);
    }
    return Ok(Response(preamble.value, Reply(StatusOf(status), text, promptTokens, completionTokens, elapsedMs, error)));
  }
}
