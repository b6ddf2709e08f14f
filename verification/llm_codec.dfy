/**
 The payload of LLM requests and responses (llm_bridge/src/LLMMessageCodec.cpp), little-endian.
 Reading past the end, a wrong magic or an unknown role makes the C++ throw; here that is a failure.
 */
module LlmCodec {
  import opened Bytes
  import opened Messages
  import opened LlmTypes

  const REQUEST_MAGIC: bytes := [0x47, 0x4C, 0x4D, 0x5F, 0x52, 0x45, 0x51, 0x5F, 0x56, 0x31]  // "GLM_REQ_V1"
  const RESPONSE_MAGIC: bytes := [0x47, 0x4C, 0x4D, 0x5F, 0x52, 0x45, 0x53, 0x5F, 0x56, 0x31] // "GLM_RES_V1"
  const REQUEST_EVENT: bytes := [0x4C, 0x4C, 0x4D, 0x5F, 0x52, 0x45, 0x51, 0x55, 0x45, 0x53, 0x54] // "LLM_REQUEST"
  const RESPONSE_EVENT: bytes := [0x4C, 0x4C, 0x4D, 0x5F, 0x52, 0x45, 0x53, 0x50, 0x4F, 0x4E, 0x53, 0x45] // "LLM_RESPONSE"

  datatype CodecError = WrongEvent | Truncated | BadMagic | BadRole

  datatype Request = Request(requestId: bytes, prompt: Prompt, config: Config)

  datatype Response = Response(requestId: bytes, result: Reply)

  // ---------------------------------------------------------------------------------------------
  // Layout

  function RoleByte(role: Role): byte {
    match role
    case System => 0
    case User => 1
    case Assistant => 2
    case Tool => 3
  }

  function RoleOf(value: byte): Option<Role> {
    match value
    case 0 => Some(System)
    case 1 => Some(User)
    case 2 => Some(Assistant)
    case 3 => Some(Tool)
    case _ => None
  }

  function StatusByte(status: Status): byte {
    match status
    case Ready => 0
    case Timeout => 1
    case Cancelled => 2
    case InvalidPrompt => 3
    case BackendError => 4
  }

  function StatusOf(value: byte): Status {
    match value
    case 0 => Ready
    case 1 => Timeout
    case 2 => Cancelled
    case 3 => InvalidPrompt
    case _ => BackendError
  }

  /** A length-prefixed string. The prefix keeps only the low 32 bits of the length. */
  function Str(s: bytes): bytes {
    LittleEndian(4, U32(|s|)) + s
  }

  function TurnBytes(t: Turn): bytes {
    [RoleByte(t.role)] + Str(t.content)
  }

  function TurnsBytes(ts: seq<Turn>): bytes {
    if ts == [] then [] else TurnBytes(ts[0]) + TurnsBytes(ts[1..])
  }

  function PromptBytes(p: Prompt): bytes {
    LittleEndian(4, U32(|p|)) + TurnsBytes(p)
  }

  function Triple(x: u32, y: u32, z: u32): bytes {
    LittleEndian(4, x) + LittleEndian(4, y) + LittleEndian(4, z)
  }

  function ConfigBytes(c: Config, flag: byte): bytes {
    Triple(c.maxTokens, c.temperature, c.topP) + LittleEndian(4, c.seed) + LittleEndian(4, c.timeoutMs) + [flag]
  }

  function Preamble(magic: bytes, id: bytes): bytes {
    Str(magic) + Str(id)
  }

  /** A request payload whose stream byte is `flag`. */
  function RequestBytes(r: Request, flag: byte): bytes {
    Preamble(REQUEST_MAGIC, r.requestId) + ConfigBytes(r.config, flag) + PromptBytes(r.prompt)
  }

  function StreamByte(stream: bool): byte {
    if stream then 1 else 0
  }

  /** The result part of a response, with `status` in place of the status byte. */
  function ReplyBytes(r: Reply, status: byte): bytes {
    [status] + Str(r.text) + Triple(r.promptTokens, r.completionTokens, r.elapsedMs) + Str(r.errorMessage)
  }

  /** A response payload whose status byte is `status`. */
  function ResponseBytes(r: Response, status: byte): bytes {
    Preamble(RESPONSE_MAGIC, r.requestId) + ReplyBytes(r.result, status)
  }

  function EncodeRequest(r: Request, source: bytes, target: bytes): Message {
    EventMessage(0, source, target, Event(REQUEST_EVENT, RequestBytes(r, StreamByte(r.config.stream))))
  }

  function EncodeResponse(r: Response, source: bytes, target: bytes): Message {
    EventMessage(0, source, target, Event(RESPONSE_EVENT, ResponseBytes(r, StatusByte(r.result.status))))
  }

  // ---------------------------------------------------------------------------------------------
  // Reading

  function ReadU32(b: bytes, o: nat): Parsed<nat, CodecError> {
    ReadLE(b, o, 4, Truncated)
  }

  function ReadByte(b: bytes, o: nat): Parsed<byte, CodecError> {
    if o + 1 > |b| then Fail(Truncated) else Got(b[o], o + 1)
  }

  function ReadStr(b: bytes, o: nat): Parsed<bytes, CodecError> {
    var (size, start) :- ReadU32(b, o);
    if start + size > |b| then Fail(Truncated) else Got(b[start..start + size], start + size)
  }

  function ReadPreamble(b: bytes, magic: bytes): Parsed<bytes, CodecError> {
    var (m, o) :- ReadStr(b, 0);
    if m != magic then Fail(BadMagic) else ReadStr(b, o)
  }

  function ReadTriple(b: bytes, o: nat): Parsed<(u32, u32, u32), CodecError> {
    var (x, o1) :- ReadU32(b, o);
    var (y, o2) :- ReadU32(b, o1);
    var (z, o3) :- ReadU32(b, o2);
    Got((U32(x), U32(y), U32(z)), o3)
  }

  function ReadConfig(b: bytes, o: nat): Parsed<Config, CodecError> {
    var (t, o1) :- ReadTriple(b, o);
    var (seed, o2) :- ReadU32(b, o1);
    var (timeoutMs, o3) :- ReadU32(b, o2);
    var (flag, o4) :- ReadByte(b, o3);
    Got(Config(t.0, t.1, t.2, U32(seed), U32(timeoutMs), flag != 0), o4)
  }

  function ReadTurn(b: bytes, o: nat): Parsed<Turn, CodecError> {
    var (r, o1) :- ReadByte(b, o);
    if RoleOf(r).None? then Fail(BadRole) else
    var (content, o2) :- ReadStr(b, o1);
    Got(Turn(RoleOf(r).value, content), o2)
  }

  function ReadTurns(b: bytes, o: nat, count: nat): Parsed<seq<Turn>, CodecError>
    decreases count
  {
    if count == 0 then Got([], o) else
    var (t, o1) :- ReadTurn(b, o);
    var (ts, o2) :- ReadTurns(b, o1, count - 1);
    Got([t] + ts, o2)
  }

  function ReadPrompt(b: bytes, o: nat): Parsed<Prompt, CodecError> {
    var (count, o1) :- ReadU32(b, o);
    ReadTurns(b, o1, count)
  }

  function ReadRequest(b: bytes): Parsed<Request, CodecError> {
    var (id, o1) :- ReadPreamble(b, REQUEST_MAGIC);
    var (config, o2) :- ReadConfig(b, o1);
    var (prompt, o3) :- ReadPrompt(b, o2);
    Got(Request(id, prompt, config), o3)
  }

  function ReadReply(b: bytes, o: nat): Parsed<Reply, CodecError> {
    var (status, o1) :- ReadByte(b, o);
    var (text, o2) :- ReadStr(b, o1);
    var (tokens, o3) :- ReadTriple(b, o2);
    var (error, o4) :- ReadStr(b, o3);
    Got(Reply(StatusOf(status), text, tokens.0, tokens.1, tokens.2, error), o4)
  }

  function ReadResponse(b: bytes): Parsed<Response, CodecError> {
    var (id, o1) :- ReadPreamble(b, RESPONSE_MAGIC);
    var (result, o2) :- ReadReply(b, o1);
    Got(Response(id, result), o2)
  }

  function DecodeRequest(m: Message): Parsed<Request, CodecError> {
    if m.event.name != REQUEST_EVENT then Fail(WrongEvent) else ReadRequest(m.event.payload)
  }

  function DecodeResponse(m: Message): Parsed<Response, CodecError> {
    if m.event.name != RESPONSE_EVENT then Fail(WrongEvent) else ReadResponse(m.event.payload)
  }

  // ---------------------------------------------------------------------------------------------
  // Sizes and bounds

  function TurnsSize(ts: seq<Turn>): nat {
    if ts == [] then 0 else 5 + |ts[0].content| + TurnsSize(ts[1..])
  }

  function RequestSize(r: Request): nat {
    43 + |r.requestId| + TurnsSize(r.prompt)
  }

  function ResponseSize(r: Response): nat {
    39 + |r.requestId| + |r.result.text| + |r.result.errorMessage|
  }

  predicate TurnsFit(ts: seq<Turn>) {
    forall i | 0 <= i < |ts| :: |ts[i].content| < TWO32
  }

  /** Everything that gets a 32-bit length or count prefix fits it. */
  predicate RequestFits(r: Request) {
    |r.requestId| < TWO32 && |r.prompt| < TWO32 && TurnsFit(r.prompt)
  }

  predicate ResponseFits(r: Response) {
    |r.requestId| < TWO32 && |r.result.text| < TWO32 && |r.result.errorMessage| < TWO32
  }

  /** Where the stream byte of a request stands. */
  function FlagAt(r: Request): nat {
    38 + |r.requestId|
  }

  /** Where the status byte of a response stands. */
  function StatusAt(r: Response): nat {
    18 + |r.requestId|
  }
}
