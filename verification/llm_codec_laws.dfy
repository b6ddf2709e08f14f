/** What the LLM codec accepts, and the laws it keeps, alone and under packet and frame. */
module LlmCodecLaws {
  import opened Bytes
  import opened Messages
  import opened LlmTypes
  import opened LlmCodec
  import opened Envelopes
  import Protocols

  // ---------------------------------------------------------------------------------------------
  // What each reader accepts

  lemma U32Exact(b: bytes, o: nat, v: nat)
    ensures ReadU32(b, o) == Got(v, o + 4) <==> v < TWO32 && At(b, o, LittleEndian(4, v))
    ensures ReadU32(b, o).Got? ==> ReadU32(b, o).next == o + 4 <= |b| && ReadU32(b, o).value < TWO32
  {
    Widths();
    ReadLEExact(b, o, 4, Truncated, v);
  }

  lemma StrExact(b: bytes, o: nat, s: bytes, next: nat)
    ensures ReadStr(b, o) == Got(s, next) <==> |s| < TWO32 && next == o + 4 + |s| && At(b, o, Str(s))
  {
    AtConcat(b, o, LittleEndian(4, U32(|s|)), s);
    U32Exact(b, o, |s|);
  }

  lemma StrEnds(b: bytes, o: nat)
    ensures ReadStr(b, o).Got? ==>
            ReadStr(b, o).next == o + 4 + |ReadStr(b, o).value| <= |b| && |ReadStr(b, o).value| < TWO32
  {
    U32Exact(b, o, 0);
  }

  lemma PreambleExact(b: bytes, magic: bytes, id: bytes, next: nat)
    requires |magic| == 10
    ensures ReadPreamble(b, magic) == Got(id, next) <==>
            |id| < TWO32 && next == 18 + |id| && At(b, 0, Preamble(magic, id))
    ensures |Preamble(magic, id)| == 18 + |id|
  {
    AtConcat(b, 0, Str(magic), Str(id));
    StrExact(b, 0, magic, 14);
    StrEnds(b, 0);
    StrExact(b, 14, id, next);
  }

  lemma TripleExact(b: bytes, o: nat, x: u32, y: u32, z: u32, next: nat)
    ensures ReadTriple(b, o) == Got((x, y, z), next) <==> next == o + 12 && At(b, o, Triple(x, y, z))
    ensures ReadTriple(b, o).Got? ==> ReadTriple(b, o).next == o + 12
  {
    var p, q, r := LittleEndian(4, x), LittleEndian(4, y), LittleEndian(4, z);
    AtConcat(b, o, p + q, r);
    AtConcat(b, o, p, q);
    U32Exact(b, o, x);
    U32Exact(b, o + 4, y);
    U32Exact(b, o + 8, z);
  }

  lemma ConfigExact(b: bytes, o: nat, c: Config, next: nat)
    ensures ReadConfig(b, o) == Got(c, next) <==>
            next == o + 21 <= |b| && c.stream == (b[o + 20] != 0) && At(b, o, ConfigBytes(c, b[o + 20]))
    ensures ReadConfig(b, o).Got? ==> ReadConfig(b, o).next == o + 21
  {
    var t, s, m := Triple(c.maxTokens, c.temperature, c.topP), LittleEndian(4, c.seed), LittleEndian(4, c.timeoutMs);
    TripleExact(b, o, c.maxTokens, c.temperature, c.topP, o + 12);
    assert |t| == 12;
    U32Exact(b, o + 12, c.seed);
    U32Exact(b, o + 16, c.timeoutMs);
    if o + 21 <= |b| {
      var flag := b[o + 20];
      assert At(b, o + 20, [flag]);
      hide Triple, At, ReadU32, ReadTriple;
      AtConcat(b, o, t + s + m, [flag]);
      AtConcat(b, o, t + s, m);
      AtConcat(b, o, t, s);
    }
  }

  lemma RoleExact(v: byte, role: Role)
    ensures RoleOf(v) == Some(role) <==> v == RoleByte(role)
  {
  }

  lemma TurnExact(b: bytes, o: nat, t: Turn, next: nat)
    ensures ReadTurn(b, o) == Got(t, next) <==>
            |t.content| < TWO32 && next == o + 5 + |t.content| && At(b, o, TurnBytes(t))
  {
    AtConcat(b, o, [RoleByte(t.role)], Str(t.content));
    StrExact(b, o + 1, t.content, next);
    if o < |b| {
      RoleExact(b[o], t.role);
    }
  }

  lemma TurnEnds(b: bytes, o: nat)
    ensures ReadTurn(b, o).Got? ==>
            ReadTurn(b, o).next == o + 5 + |ReadTurn(b, o).value.content| <= |b|
  {
    if ReadTurn(b, o).Got? {
      StrEnds(b, o + 1);
    }
  }

  lemma TurnsLayout(b: bytes, o: nat, ts: seq<Turn>)
    requires ts != []
    ensures At(b, o, TurnsBytes(ts)) <==>
            At(b, o, TurnBytes(ts[0])) && At(b, o + 5 + |ts[0].content|, TurnsBytes(ts[1..]))
  {
    assert |TurnBytes(ts[0])| == 5 + |ts[0].content|;
    hide TurnBytes, At;
    AtConcat(b, o, TurnBytes(ts[0]), TurnsBytes(ts[1..]));
  }

  lemma TurnsStep(b: bytes, o: nat, count: nat, ts: seq<Turn>, next: nat)
    requires count > 0
    ensures ReadTurns(b, o, count) == Got(ts, next) <==>
            && ts != [] && ReadTurn(b, o) == Got(ts[0], o + 5 + |ts[0].content|)
            && ReadTurns(b, o + 5 + |ts[0].content|, count - 1) == Got(ts[1..], next)
  {
    TurnEnds(b, o);
    hide ReadTurn;
    assert ts != [] ==> ts == [ts[0]] + ts[1..];
  }

  lemma TurnsFitStep(ts: seq<Turn>)
    requires ts != []
    ensures TurnsFit(ts) <==> |ts[0].content| < TWO32 && TurnsFit(ts[1..])
  {
    assert ts == [ts[0]] + ts[1..];
  }

  /** The first `next - o` bytes from `o` are the turns `ts`, each fit for its prefix. */
  predicate TurnsAt(b: bytes, o: nat, ts: seq<Turn>, next: nat) {
    TurnsFit(ts) && next == o + TurnsSize(ts) && At(b, o, TurnsBytes(ts))
  }

  lemma TurnsAtStep(b: bytes, o: nat, ts: seq<Turn>, next: nat)
    requires ts != []
    ensures var mid := o + 5 + |ts[0].content|;
            TurnsAt(b, o, ts, next) <==>
            ReadTurn(b, o) == Got(ts[0], mid) && mid <= |b| && TurnsAt(b, mid, ts[1..], next)
  {
    var mid := o + 5 + |ts[0].content|;
    TurnExact(b, o, ts[0], mid);
    TurnEnds(b, o);
    TurnsLayout(b, o, ts);
    TurnsFitStep(ts);
    hide At, ReadTurn, TurnBytes, TurnsBytes, TurnsFit;
  }

  lemma {:induction false} TurnsExact(b: bytes, o: nat, count: nat, ts: seq<Turn>, next: nat)
    requires o <= |b|
    ensures ReadTurns(b, o, count) == Got(ts, next) <==> |ts| == count && TurnsAt(b, o, ts, next)
    decreases count
  {
    hide *;
    if count == 0 {
      TurnsNone(b, o, ts, next);
    } else {
      TurnsStep(b, o, count, ts, next);
      if ts != [] {
        var mid := o + 5 + |ts[0].content|;
        TurnsAtStep(b, o, ts, next);
        TurnEnds(b, o);
        if mid <= |b| {
          TurnsExact(b, mid, count - 1, ts[1..], next);
        }
      }
    }
  }

  lemma TurnsNone(b: bytes, o: nat, ts: seq<Turn>, next: nat)
    requires o <= |b|
    ensures ReadTurns(b, o, 0) == Got(ts, next) <==> |ts| == 0 && TurnsAt(b, o, ts, next)
  {
    if |ts| == 0 {
      assert TurnsBytes(ts) == [];
    }
  }

  lemma {:induction false} TurnsBytesSize(ts: seq<Turn>)
    ensures |TurnsBytes(ts)| == TurnsSize(ts) >= 5 * |ts|
  {
    if ts != [] {
      TurnsBytesSize(ts[1..]);
    }
  }

  lemma PromptExact(b: bytes, o: nat, p: Prompt, next: nat)
    ensures ReadPrompt(b, o) == Got(p, next) <==>
            |p| < TWO32 && TurnsFit(p) && next == o + 4 + TurnsSize(p) && At(b, o, PromptBytes(p))
  {
    AtConcat(b, o, LittleEndian(4, U32(|p|)), TurnsBytes(p));
    U32Exact(b, o, |p|);
    if o + 4 <= |b| {
      TurnsExact(b, o + 4, ReadU32(b, o).value, p, next);
    }
  }

  lemma RequestBytesSize(r: Request, flag: byte)
    ensures |RequestBytes(r, flag)| == RequestSize(r)
    ensures RequestBytes(r, flag)[FlagAt(r)] == flag
    ensures forall f: byte :: RequestBytes(r, f) == RequestBytes(r, flag)[FlagAt(r) := f]
  {
    TurnsBytesSize(r.prompt);
    assert |Preamble(REQUEST_MAGIC, r.requestId)| == 18 + |r.requestId|;
  }

  lemma RequestLayout(b: bytes, r: Request, flag: byte)
    ensures RequestBytes(r, flag) <= b <==>
            && At(b, 0, Preamble(REQUEST_MAGIC, r.requestId))
            && At(b, 18 + |r.requestId|, ConfigBytes(r.config, flag))
            && At(b, 39 + |r.requestId|, PromptBytes(r.prompt))
  {
    var p, c := Preamble(REQUEST_MAGIC, r.requestId), ConfigBytes(r.config, flag);
    assert |c| == 21;
    hide Preamble, ConfigBytes, PromptBytes, At;
    PreambleExact(b, REQUEST_MAGIC, r.requestId, 0);
    AtPrefix(b, RequestBytes(r, flag));
    AtConcat(b, 0, p + c, PromptBytes(r.prompt));
    AtConcat(b, 0, p, c);
  }

  lemma PreambleEnds(b: bytes, magic: bytes)
    requires |magic| == 10
    ensures ReadPreamble(b, magic).Got? ==> ReadPreamble(b, magic).next == 18 + |ReadPreamble(b, magic).value|
  {
    if ReadPreamble(b, magic).Got? {
      PreambleExact(b, magic, ReadPreamble(b, magic).value, ReadPreamble(b, magic).next);
    }
  }

  lemma RequestSteps(b: bytes, r: Request, next: nat)
    ensures ReadRequest(b) == Got(r, next) <==>
            && ReadPreamble(b, REQUEST_MAGIC) == Got(r.requestId, 18 + |r.requestId|)
            && ReadConfig(b, 18 + |r.requestId|) == Got(r.config, 39 + |r.requestId|)
            && ReadPrompt(b, 39 + |r.requestId|) == Got(r.prompt, next)
  {
    PreambleEnds(b, REQUEST_MAGIC);
    ConfigExact(b, 18 + |r.requestId|, r.config, next);
    hide ReadPreamble, ReadConfig, ReadPrompt;
  }

  lemma PromptInside(b: bytes, o: nat, p: Prompt)
    ensures At(b, o, PromptBytes(p)) ==> o + 4 + TurnsSize(p) <= |b|
  {
    TurnsBytesSize(p);
  }

  /**
   A payload reads as `r`, up to offset `next`, exactly when its first `next` bytes are the encoding of
   `r` with, in place of the stream byte, any byte that is zero exactly when `r` does not stream.
   */
  lemma RequestExact(b: bytes, r: Request, next: nat)
    ensures ReadRequest(b) == Got(r, next) <==>
            && RequestFits(r) && next == RequestSize(r) <= |b|
            && r.config.stream == (b[FlagAt(r)] != 0) && RequestBytes(r, b[FlagAt(r)]) <= b
  {
    hide ReadRequest, ReadPreamble, ReadConfig, ReadPrompt, RequestBytes, Preamble, ConfigBytes, PromptBytes, At, TurnsFit;
    RequestSteps(b, r, next);
    PreambleExact(b, REQUEST_MAGIC, r.requestId, 18 + |r.requestId|);
    ConfigExact(b, 18 + |r.requestId|, r.config, 39 + |r.requestId|);
    PromptExact(b, 39 + |r.requestId|, r.prompt, next);
    PromptInside(b, 39 + |r.requestId|, r.prompt);
    if RequestSize(r) <= |b| {
      RequestLayout(b, r, b[FlagAt(r)]);
    }
  }

  /** What an accepted request says about the payload it was read from. */
  lemma AcceptedRequest(b: bytes)
    ensures ReadRequest(b).Got? ==>
            var r, n := ReadRequest(b).value, ReadRequest(b).next;
            && RequestFits(r) && n == RequestSize(r) <= |b|
            && r.config.stream == (b[FlagAt(r)] != 0) && RequestBytes(r, b[FlagAt(r)]) == b[..n]
  {
    if ReadRequest(b).Got? {
      var r, n := ReadRequest(b).value, ReadRequest(b).next;
      RequestExact(b, r, n);
      RequestBytesSize(r, b[FlagAt(r)]);
    }
  }

  // ---------------------------------------------------------------------------------------------
  // Requests: the laws

  /**
   A request survives encoding, whatever its list of messages, exactly when every length and count fits
   its 32-bit prefix; the reader then stops exactly at the end.
   */
  lemma RequestRoundTrip(r: Request, source: bytes, target: bytes)
    ensures var m := EncodeRequest(r, source, target);
            && |m.event.payload| == RequestSize(r)
            && (DecodeRequest(m) == Got(r, RequestSize(r)) <==> RequestFits(r))
            && (DecodeRequest(m).Got? && DecodeRequest(m).value == r ==> RequestFits(r))
  {
    var flag := StreamByte(r.config.stream);
    var b := RequestBytes(r, flag);
    RequestBytesSize(r, flag);
    RequestExact(b, r, RequestSize(r));
    AcceptedRequest(b);
  }

  /** Bytes after an accepted request change nothing. */
  lemma RequestExtensionStable(b: bytes, s: bytes)
    ensures ReadRequest(b).Got? ==> ReadRequest(b + s) == ReadRequest(b)
  {
    if ReadRequest(b).Got? {
      var r, n := ReadRequest(b).value, ReadRequest(b).next;
      RequestExact(b, r, n);
      RequestExact(b + s, r, n);
    }
  }

  /** Cutting an accepted request short anywhere makes it rejected. */
  lemma RequestCutShort(b: bytes, k: nat)
    requires ReadRequest(b).Got? && k < ReadRequest(b).next && k <= |b|
    ensures ReadRequest(b[..k]).Fail?
  {
    var short := b[..k];
    assert b == short + b[k..];
    AcceptedRequest(short);
    hide ReadRequest;
    RequestExtensionStable(short, b[k..]);
  }

  /** No strict prefix of an encoded request decodes. */
  lemma RequestStrictPrefixRejected(r: Request, k: nat)
    requires RequestFits(r) && k < RequestSize(r)
    ensures var b := RequestBytes(r, StreamByte(r.config.stream)); |b| == RequestSize(r) && ReadRequest(b[..k]).Fail?
  {
    RequestRoundTrip(r, [], []);
    RequestCutShort(RequestBytes(r, StreamByte(r.config.stream)), k);
  }

  /**
   Encoding an accepted request again gives back the consumed bytes, except that the stream byte
   becomes 0 or 1, so a second decode sees the same request.
   */
  lemma RequestNormalForm(m: Message, source: bytes, target: bytes)
    ensures DecodeRequest(m).Got? ==>
            var r, n := DecodeRequest(m).value, DecodeRequest(m).next;
            var b := m.event.payload;
            var again := EncodeRequest(r, source, target);
            && FlagAt(r) < n <= |b|
            && again.event.payload == b[..n][FlagAt(r) := if b[FlagAt(r)] == 0 then 0 else 1]
            && DecodeRequest(again) == Got(r, n)
  {
    AcceptedRequest(m.event.payload);
    if DecodeRequest(m).Got? {
      var r := DecodeRequest(m).value;
      RequestRoundTrip(r, source, target);
      RequestBytesSize(r, m.event.payload[FlagAt(r)]);
    }
  }

  /** However many messages a payload declares, an accepted one holds at most a fifth of its size. */
  lemma MessageCountBound(b: bytes)
    ensures ReadRequest(b).Got? ==> 43 + 5 * |ReadRequest(b).value.prompt| <= ReadRequest(b).next <= |b|
  {
    AcceptedRequest(b);
    if ReadRequest(b).Got? {
      TurnsBytesSize(ReadRequest(b).value.prompt);
    }
  }

  // ---------------------------------------------------------------------------------------------
  // Responses

  lemma ReplySteps(b: bytes, o: nat, r: Reply, next: nat)
    ensures ReadReply(b, o) == Got(r, next) <==>
            && o < |b| && StatusOf(b[o]) == r.status
            && ReadStr(b, o + 1) == Got(r.text, o + 5 + |r.text|)
            && ReadTriple(b, o + 5 + |r.text|) == Got((r.promptTokens, r.completionTokens, r.elapsedMs), o + 17 + |r.text|)
            && ReadStr(b, o + 17 + |r.text|) == Got(r.errorMessage, next)
  {
    hide ReadStr, ReadTriple, StatusOf;
    StrEnds(b, o + 1);
    TripleExact(b, o + 5 + |r.text|, 0, 0, 0, 0);
  }

  lemma ReplyExact(b: bytes, o: nat, r: Reply, next: nat)
    ensures ReadReply(b, o) == Got(r, next) <==>
            && |r.text| < TWO32 && |r.errorMessage| < TWO32
            && next == o + 21 + |r.text| + |r.errorMessage|
            && o < |b| && StatusOf(b[o]) == r.status && At(b, o, ReplyBytes(r, b[o]))
  {
    hide *;
    var o3 := o + 5 + |r.text|;
    ReplySteps(b, o, r, next);
    StrExact(b, o + 1, r.text, o3);
    TripleExact(b, o3, r.promptTokens, r.completionTokens, r.elapsedMs, o3 + 12);
    StrExact(b, o3 + 12, r.errorMessage, next);
    if o < |b| {
      ReplyLayout(b, o, r);
    }
  }

  lemma ReplyLayout(b: bytes, o: nat, r: Reply)
    requires o < |b|
    ensures At(b, o, ReplyBytes(r, b[o])) <==>
            && At(b, o + 1, Str(r.text))
            && At(b, o + 5 + |r.text|, Triple(r.promptTokens, r.completionTokens, r.elapsedMs))
            && At(b, o + 17 + |r.text|, Str(r.errorMessage))
  {
    var s, t, k, e := [b[o]], Str(r.text), Triple(r.promptTokens, r.completionTokens, r.elapsedMs), Str(r.errorMessage);
    assert At(b, o, s);
    assert |t| == 4 + |r.text| && |k| == 12;
    hide Str, Triple, At;
    AtConcat(b, o, s + t + k, e);
    AtConcat(b, o, s + t, k);
    AtConcat(b, o, s, t);
  }

  lemma ReplyBytesSize(r: Reply, status: byte)
    ensures |ReplyBytes(r, status)| == 21 + |r.text| + |r.errorMessage|
    ensures ReplyBytes(r, status)[0] == status
    ensures forall s: byte :: ReplyBytes(r, s) == ReplyBytes(r, status)[0 := s]
  {
    assert |Str(r.text)| == 4 + |r.text| && |Str(r.errorMessage)| == 4 + |r.errorMessage|;
  }

  lemma UpdateBehind(p: bytes, s: bytes, x: byte)
    requires s != []
    ensures (p + s)[|p|] == s[0] && (p + s)[|p| := x] == p + s[0 := x]
  {
  }

  lemma ResponseBytesSize(r: Response, status: byte)
    ensures |ResponseBytes(r, status)| == ResponseSize(r)
    ensures ResponseBytes(r, status)[StatusAt(r)] == status
    ensures forall s: byte :: ResponseBytes(r, s) == ResponseBytes(r, status)[StatusAt(r) := s]
  {
    hide Preamble, ReplyBytes;
    var p := Preamble(RESPONSE_MAGIC, r.requestId);
    PreambleExact([], RESPONSE_MAGIC, r.requestId, 0);
    ReplyBytesSize(r.result, status);
    forall s: byte
      ensures ResponseBytes(r, s) == ResponseBytes(r, status)[StatusAt(r) := s]
    {
      UpdateBehind(p, ReplyBytes(r.result, status), s);
    }
    UpdateBehind(p, ReplyBytes(r.result, status), 0);
  }

  /**
   A payload reads as response `r`, up to offset `next`, exactly when its first `next` bytes are the
   encoding of `r` with, in place of the status byte, any byte that stands for the status of `r`.
   */
  lemma ResponseExact(b: bytes, r: Response, next: nat)
    ensures ReadResponse(b) == Got(r, next) <==>
            && ResponseFits(r) && next == ResponseSize(r) <= |b|
            && StatusOf(b[StatusAt(r)]) == r.result.status && ResponseBytes(r, b[StatusAt(r)]) <= b
  {
    var o := StatusAt(r);
    PreambleEnds(b, RESPONSE_MAGIC);
    PreambleExact(b, RESPONSE_MAGIC, r.requestId, o);
    ReplyExact(b, o, r.result, next);
    if o < |b| {
      ResponseBytesSize(r, b[o]);
      AtPrefix(b, ResponseBytes(r, b[o]));
      AtConcat(b, 0, Preamble(RESPONSE_MAGIC, r.requestId), ReplyBytes(r.result, b[o]));
    }
    hide ReadPreamble, ReadReply, Preamble, ReplyBytes;
  }

  lemma AcceptedResponse(b: bytes)
    ensures ReadResponse(b).Got? ==>
            var r, n := ReadResponse(b).value, ReadResponse(b).next;
            && ResponseFits(r) && n == ResponseSize(r) <= |b|
            && StatusOf(b[StatusAt(r)]) == r.result.status && ResponseBytes(r, b[StatusAt(r)]) == b[..n]
  {
    if ReadResponse(b).Got? {
      var r, n := ReadResponse(b).value, ReadResponse(b).next;
      ResponseExact(b, r, n);
      ResponseBytesSize(r, b[StatusAt(r)]);
    }
  }

  /** A response survives encoding exactly when its three strings fit their 32-bit prefixes. */
  lemma ResponseRoundTrip(r: Response, source: bytes, target: bytes)
    ensures var m := EncodeResponse(r, source, target);
            && |m.event.payload| == ResponseSize(r)
            && (DecodeResponse(m) == Got(r, ResponseSize(r)) <==> ResponseFits(r))
            && (DecodeResponse(m).Got? && DecodeResponse(m).value == r ==> ResponseFits(r))
  {
    var status := StatusByte(r.result.status);
    var b := ResponseBytes(r, status);
    ResponseBytesSize(r, status);
    ResponseExact(b, r, ResponseSize(r));
    AcceptedResponse(b);
  }

  lemma ResponseExtensionStable(b: bytes, s: bytes)
    ensures ReadResponse(b).Got? ==> ReadResponse(b + s) == ReadResponse(b)
  {
    if ReadResponse(b).Got? {
      var r, n := ReadResponse(b).value, ReadResponse(b).next;
      ResponseExact(b, r, n);
      ResponseExact(b + s, r, n);
    }
  }

  /** Cutting an accepted response short anywhere makes it rejected. */
  lemma ResponseCutShort(b: bytes, k: nat)
    requires ReadResponse(b).Got? && k < ReadResponse(b).next && k <= |b|
    ensures ReadResponse(b[..k]).Fail?
  {
    var short := b[..k];
    assert b == short + b[k..];
    AcceptedResponse(short);
    hide ReadResponse;
    ResponseExtensionStable(short, b[k..]);
  }

  /** No strict prefix of an encoded response decodes. */
  lemma ResponseStrictPrefixRejected(r: Response, k: nat)
    requires ResponseFits(r) && k < ResponseSize(r)
    ensures var b := ResponseBytes(r, StatusByte(r.result.status));
            |b| == ResponseSize(r) && ReadResponse(b[..k]).Fail?
  {
    ResponseRoundTrip(r, [], []);
    ResponseCutShort(ResponseBytes(r, StatusByte(r.result.status)), k);
  }

  lemma StatusNormalForm(v: byte)
    ensures StatusByte(StatusOf(v)) == if v > 4 then 4 else v
  {
  }

  /**
   Encoding an accepted response again gives back the consumed bytes, except that a status byte above 4
   becomes 4, so a second decode sees the same response.
   */
  lemma ResponseNormalForm(m: Message, source: bytes, target: bytes)
    ensures DecodeResponse(m).Got? ==>
            var r, n := DecodeResponse(m).value, DecodeResponse(m).next;
            var b := m.event.payload;
            var again := EncodeResponse(r, source, target);
            && StatusAt(r) < n <= |b|
            && again.event.payload == b[..n][StatusAt(r) := if b[StatusAt(r)] > 4 then 4 else b[StatusAt(r)]]
            && DecodeResponse(again) == Got(r, n)
  {
    AcceptedResponse(m.event.payload);
    if DecodeResponse(m).Got? {
      var r := DecodeResponse(m).value;
      var b := m.event.payload;
      ResponseRoundTrip(r, source, target);
      ResponseBytesSize(r, b[StatusAt(r)]);
      StatusNormalForm(b[StatusAt(r)]);
      hide ReadResponse, ResponseBytes, StatusOf, StatusByte;
    }
  }

  // ---------------------------------------------------------------------------------------------
  // Down and up the whole stack

  /**
   A request comes through codec, packet and frame unchanged exactly when the packet is shorter than
   2^32 bytes, which leaves no field of the request too long.
   */
  lemma RequestCarried(r: Request, source: bytes, target: bytes)
    ensures var m := EncodeRequest(r, source, target);
            var back := MessageOf(FrameOf(m));
            && Protocols.Size(m) == 31 + |source| + |target| + 11 + RequestSize(r)
            && (Protocols.Size(m) < TWO32 <==> back == Some(m))
            && (back == Some(m) ==> DecodeRequest(back.value) == Got(r, RequestSize(r)))
  {
    var m := EncodeRequest(r, source, target);
    Carried(m);
    RequestRoundTrip(r, source, target);
    SmallRequestFits(r);
  }

  lemma SmallRequestFits(r: Request)
    ensures RequestSize(r) < TWO32 ==> RequestFits(r)
  {
    TurnsBytesSize(r.prompt);
    forall i | 0 <= i < |r.prompt|
      ensures |r.prompt[i].content| <= TurnsSize(r.prompt)
    {
      TurnInside(r.prompt, i);
    }
  }

  lemma {:induction false} TurnInside(ts: seq<Turn>, i: nat)
    requires i < |ts|
    ensures |ts[i].content| <= TurnsSize(ts)
  {
    if i > 0 {
      TurnInside(ts[1..], i - 1);
    }
  }

  lemma ResponseCarried(r: Response, source: bytes, target: bytes)
    ensures var m := EncodeResponse(r, source, target);
            var back := MessageOf(FrameOf(m));
            && Protocols.Size(m) == 31 + |source| + |target| + 12 + ResponseSize(r)
            && (Protocols.Size(m) < TWO32 <==> back == Some(m))
            && (back == Some(m) ==> DecodeResponse(back.value) == Got(r, ResponseSize(r)))
  {
    var m := EncodeResponse(r, source, target);
    Carried(m);
    ResponseRoundTrip(r, source, target);
  }

  // ---------------------------------------------------------------------------------------------
  // Byte by byte

  lemma RoleNumbers()
    ensures RoleByte(System) == 0 && RoleByte(User) == 1 && RoleByte(Assistant) == 2 && RoleByte(Tool) == 3
  {
  }

  lemma StatusNumbers()
    ensures StatusByte(Ready) == 0 && StatusByte(Timeout) == 1 && StatusByte(Cancelled) == 2
    ensures StatusByte(InvalidPrompt) == 3 && StatusByte(BackendError) == 4
  {
  }

  lemma TenBytes()
    ensures LittleEndian(4, 10) == [10, 0, 0, 0]
  {
    hide LittleEndian;
    ShiftedDigits(10);
  }

  /** A request, piece by piece, integers least significant byte first: event "LLM_REQUEST", payload "GLM_REQ_V1" and on. */
  lemma RequestFields(r: Request, source: bytes, target: bytes)
    ensures var m := EncodeRequest(r, source, target);
            && m.id == 0 && m.kind == 0 && m.source == source && m.target == target
            && m.event.name == [0x4C, 0x4C, 0x4D, 0x5F, 0x52, 0x45, 0x51, 0x55, 0x45, 0x53, 0x54]
            && m.event.payload ==
               [10, 0, 0, 0] + [0x47, 0x4C, 0x4D, 0x5F, 0x52, 0x45, 0x51, 0x5F, 0x56, 0x31]
               + LittleEndian(4, |r.requestId| % TWO32) + r.requestId
               + LittleEndian(4, r.config.maxTokens) + LittleEndian(4, r.config.temperature)
               + LittleEndian(4, r.config.topP) + LittleEndian(4, r.config.seed) + LittleEndian(4, r.config.timeoutMs)
               + [if r.config.stream then 1 else 0]
               + LittleEndian(4, |r.prompt| % TWO32) + TurnsBytes(r.prompt)
  {
    hide LittleEndian, TurnsBytes;
    TenBytes();
    var c := r.config;
    Regroup(Preamble(REQUEST_MAGIC, r.requestId), LittleEndian(4, c.maxTokens), LittleEndian(4, c.temperature),
            LittleEndian(4, c.topP), LittleEndian(4, c.seed), LittleEndian(4, c.timeoutMs), [StreamByte(c.stream)]);
    Assoc([10, 0, 0, 0] + REQUEST_MAGIC, LittleEndian(4, U32(|r.requestId|)), r.requestId);
    Assoc(Preamble(REQUEST_MAGIC, r.requestId) + ConfigBytes(c, StreamByte(c.stream)),
          LittleEndian(4, U32(|r.prompt|)), TurnsBytes(r.prompt));
  }

  lemma Regroup(p: bytes, a: bytes, b: bytes, c: bytes, d: bytes, e: bytes, f: bytes)
    ensures p + (a + b + c + d + e + f) == p + a + b + c + d + e + f
  {
  }

  /** Each further message of a request is a role number, the length of the content and the content. */
  lemma {:induction false} TurnsFields(ts: seq<Turn>, t: Turn)
    ensures TurnsBytes([]) == []
    ensures TurnsBytes(ts + [t]) ==
            TurnsBytes(ts)
            + [if t.role == System then 0 else if t.role == User then 1 else if t.role == Assistant then 2 else 3]
            + LittleEndian(4, |t.content| % TWO32) + t.content
    decreases |ts|
  {
    hide LittleEndian;
    if ts == [] {
      assert ts + [t] == [t] && [t][1..] == [];
    } else {
      TurnsFields(ts[1..], t);
      assert (ts + [t])[1..] == ts[1..] + [t];
    }
  }

  /** A response, piece by piece: event "LLM_RESPONSE", payload "GLM_RES_V1" and on. */
  lemma ResponseFields(r: Response, source: bytes, target: bytes)
    ensures var m := EncodeResponse(r, source, target);
            && m.id == 0 && m.kind == 0 && m.source == source && m.target == target
            && m.event.name == [0x4C, 0x4C, 0x4D, 0x5F, 0x52, 0x45, 0x53, 0x50, 0x4F, 0x4E, 0x53, 0x45]
            && m.event.payload ==
               [10, 0, 0, 0] + [0x47, 0x4C, 0x4D, 0x5F, 0x52, 0x45, 0x53, 0x5F, 0x56, 0x31]
               + LittleEndian(4, |r.requestId| % TWO32) + r.requestId + [StatusByte(r.result.status)]
               + LittleEndian(4, |r.result.text| % TWO32) + r.result.text
               + LittleEndian(4, r.result.promptTokens) + LittleEndian(4, r.result.completionTokens)
               + LittleEndian(4, r.result.elapsedMs)
               + LittleEndian(4, |r.result.errorMessage| % TWO32) + r.result.errorMessage
  {
    hide LittleEndian, StatusByte;
    TenBytes();
    var x := r.result;
    var triple := [LittleEndian(4, x.promptTokens), LittleEndian(4, x.completionTokens), LittleEndian(4, x.elapsedMs)];
    Assoc([10, 0, 0, 0] + RESPONSE_MAGIC, LittleEndian(4, U32(|r.requestId|)), r.requestId);
    RegroupReply(Preamble(RESPONSE_MAGIC, r.requestId), [StatusByte(x.status)], LittleEndian(4, U32(|x.text|)), x.text,
                 triple[0], triple[1], triple[2], LittleEndian(4, U32(|x.errorMessage|)), x.errorMessage);
  }

  lemma RegroupReply(p: bytes, s: bytes, n: bytes, t: bytes, a: bytes, b: bytes, c: bytes, k: bytes, e: bytes)
    ensures p + (s + (n + t) + (a + b + c) + (k + e)) == p + s + n + t + a + b + c + k + e
  {
  }

  // ---------------------------------------------------------------------------------------------
  // Errors

  /** A string other than `magic` stands at the start, whole. */
  ghost predicate OtherMagic(b: bytes, magic: bytes) {
    exists s :: s != magic && |s| < TWO32 && At(b, 0, Str(s))
  }

  lemma PreambleErrors(b: bytes, magic: bytes)
    ensures ReadPreamble(b, magic) == Fail(BadMagic) <==> OtherMagic(b, magic)
  {
    hide At, Str, ReadStr;
    StrReads(b, 0);
    if ReadStr(b, 0).Got? {
      StrReads(b, ReadStr(b, 0).next);
      StrExact(b, 0, ReadStr(b, 0).value, ReadStr(b, 0).next);
    }
    if s :| s != magic && |s| < TWO32 && At(b, 0, Str(s)) {
      StrExact(b, 0, s, 4 + |s|);
    }
  }

  lemma StrReads(b: bytes, o: nat)
    ensures ReadStr(b, o).Got? || ReadStr(b, o) == Fail(Truncated)
  {
  }

  /** Behind the messages `ts`, fewer than the `count` declared, stands a byte that is no role. */
  predicate NoRoleAfter(b: bytes, o: nat, count: nat, ts: seq<Turn>) {
    && |ts| < count && TurnsFit(ts) && At(b, o, TurnsBytes(ts))
    && o + TurnsSize(ts) < |b| && b[o + TurnsSize(ts)] > 3
  }

  ghost predicate OtherRole(b: bytes, o: nat, count: nat) {
    exists ts :: NoRoleAfter(b, o, count, ts)
  }

  lemma TurnReads(b: bytes, o: nat)
    ensures ReadTurn(b, o) == Fail(BadRole) <==> o < |b| && b[o] > 3
    ensures ReadTurn(b, o).Got? || ReadTurn(b, o) == Fail(BadRole) || ReadTurn(b, o) == Fail(Truncated)
  {
    if o < |b| {
      StrReads(b, o + 1);
    }
  }

  /** Reading the messages ends with an unknown role exactly where one stands behind fewer messages than declared. */
  lemma {:induction false} TurnsErrors(b: bytes, o: nat, count: nat)
    ensures ReadTurns(b, o, count) == Fail(BadRole) <==> OtherRole(b, o, count)
    ensures ReadTurns(b, o, count).Got? || ReadTurns(b, o, count) == Fail(BadRole) || ReadTurns(b, o, count) == Fail(Truncated)
    decreases count
  {
    hide At, ReadTurn, TurnBytes;
    if count > 0 {
      TurnReads(b, o);
      if ReadTurn(b, o).Got? {
        var t, next := ReadTurn(b, o).value, ReadTurn(b, o).next;
        TurnsErrors(b, next, count - 1);
        RoleBehind(b, o, count, t, next);
      } else {
        RoleHere(b, o, count);
      }
    }
  }

  lemma RoleAfterNone(b: bytes, o: nat, count: nat)
    ensures NoRoleAfter(b, o, count, []) <==> count > 0 && o < |b| && b[o] > 3
  {
    if o <= |b| {
      assert b[o..o] == [];
    }
  }

  lemma RoleAfterMore(b: bytes, o: nat, count: nat, ts: seq<Turn>)
    requires ts != []
    ensures NoRoleAfter(b, o, count, ts) <==>
            && count > 0 && ReadTurn(b, o) == Got(ts[0], o + 5 + |ts[0].content|)
            && NoRoleAfter(b, o + 5 + |ts[0].content|, count - 1, ts[1..])
  {
    hide At, TurnBytes, TurnsBytes, ReadTurn, TurnsFit;
    TurnsFitStep(ts);
    TurnsLayout(b, o, ts);
    TurnExact(b, o, ts[0], o + 5 + |ts[0].content|);
  }

  lemma RoleHere(b: bytes, o: nat, count: nat)
    requires count > 0 && ReadTurn(b, o).Fail?
    ensures OtherRole(b, o, count) <==> o < |b| && b[o] > 3
  {
    hide ReadTurn, NoRoleAfter;
    RoleAfterNone(b, o, count);
    if ts: seq<Turn> :| NoRoleAfter(b, o, count, ts) && ts != [] {
      RoleAfterMore(b, o, count, ts);
    }
  }

  lemma RoleBehind(b: bytes, o: nat, count: nat, t: Turn, next: nat)
    requires count > 0 && ReadTurn(b, o) == Got(t, next)
    ensures OtherRole(b, o, count) <==> OtherRole(b, next, count - 1)
  {
    hide ReadTurn, NoRoleAfter;
    RoleAfterNone(b, o, count);
    TurnReads(b, o);
    TurnEnds(b, o);
    if ts: seq<Turn> :| NoRoleAfter(b, o, count, ts) && ts != [] {
      RoleAfterMore(b, o, count, ts);
    }
    var fewer: nat := count - 1;
    if ts: seq<Turn> :| NoRoleAfter(b, next, fewer, ts) {
      var all := [t] + ts;
      assert all[1..] == ts;
      RoleAfterMore(b, o, count, all);
    }
  }

  /** A request as far as its messages `r.prompt`, fewer than the `count` declared, and then a byte that is no role. */
  ghost predicate RoleMissing(b: bytes, r: Request, count: nat) {
    var o := 18 + |r.requestId|;
    && |r.requestId| < TWO32 && At(b, 0, Preamble(REQUEST_MAGIC, r.requestId))
    && o + 21 <= |b| && r.config.stream == (b[o + 20] != 0) && At(b, o, ConfigBytes(r.config, b[o + 20]))
    && count < TWO32 && At(b, o + 21, LittleEndian(4, count))
    && NoRoleAfter(b, o + 25, count, r.prompt)
  }

  lemma RoleMissingFails(b: bytes, r: Request, count: nat)
    requires RoleMissing(b, r, count)
    ensures ReadRequest(b) == Fail(BadRole)
  {
    hide At, LittleEndian, ReadPreamble, ReadConfig, ReadTurns, ReadU32, ConfigBytes, Preamble, NoRoleAfter;
    var o := 18 + |r.requestId|;
    PreambleExact(b, REQUEST_MAGIC, r.requestId, o);
    ConfigExact(b, o, r.config, o + 21);
    U32Exact(b, o + 21, count);
    TurnsErrors(b, o + 25, count);
  }

  /** No reader but that of the messages fails for want of a role. */
  lemma BadRoleSteps(b: bytes)
    requires ReadRequest(b) == Fail(BadRole)
    ensures ReadPreamble(b, REQUEST_MAGIC).Got?
    ensures var o := ReadPreamble(b, REQUEST_MAGIC).next;
            && ReadConfig(b, o).Got? && ReadU32(b, ReadConfig(b, o).next).Got?
            && var (count, o2) := (ReadU32(b, ReadConfig(b, o).next).value, ReadU32(b, ReadConfig(b, o).next).next);
               ReadTurns(b, o2, count) == Fail(BadRole)
  {
    hide ReadPreamble, ReadConfig, ReadTurns;
    PreambleReads(b, REQUEST_MAGIC);
    if ReadPreamble(b, REQUEST_MAGIC).Got? {
      ConfigReads(b, ReadPreamble(b, REQUEST_MAGIC).next);
    }
  }

  lemma BadRoleMissing(b: bytes) returns (r: Request, count: nat)
    requires ReadRequest(b) == Fail(BadRole)
    ensures RoleMissing(b, r, count)
  {
    hide At, LittleEndian, ReadRequest, ReadPreamble, ReadConfig, ReadTurns, ReadU32, ConfigBytes, Preamble, NoRoleAfter;
    BadRoleSteps(b);
    PreambleEnds(b, REQUEST_MAGIC);
    var id, o := ReadPreamble(b, REQUEST_MAGIC).value, ReadPreamble(b, REQUEST_MAGIC).next;
    PreambleExact(b, REQUEST_MAGIC, id, o);
    var c := ReadConfig(b, o).value;
    ConfigExact(b, o, c, o + 21);
    U32Exact(b, o + 21, 0);
    count := ReadU32(b, o + 21).value;
    U32Exact(b, o + 21, count);
    TurnsErrors(b, o + 25, count);
    var ts :| NoRoleAfter(b, o + 25, count, ts);
    r := Request(id, ts, c);
  }

  /**
   Which messages are refused as requests with which error: those of another event; those that start with another
   magic string; those where a byte that is no role stands in place of a message; the rest end too soon.
   */
  lemma RequestErrors(m: Message)
    ensures DecodeRequest(m) == Fail(WrongEvent) <==>
            m.event.name != [0x4C, 0x4C, 0x4D, 0x5F, 0x52, 0x45, 0x51, 0x55, 0x45, 0x53, 0x54]
    ensures m.event.name == REQUEST_EVENT ==>
            && (DecodeRequest(m) == Fail(BadMagic) <==> OtherMagic(m.event.payload, REQUEST_MAGIC))
            && (DecodeRequest(m) == Fail(BadRole) <==> exists r, count :: RoleMissing(m.event.payload, r, count))
  {
    hide ReadRequest, OtherMagic, RoleMissing;
    var b := m.event.payload;
    BadMagicRequest(b);
    if r, count :| RoleMissing(b, r, count) {
      RoleMissingFails(b, r, count);
    }
    if ReadRequest(b) == Fail(BadRole) {
      var r, count := BadRoleMissing(b);
    }
    NeverWrongEvent(b);
  }

  lemma BadMagicRequest(b: bytes)
    ensures ReadRequest(b) == Fail(BadMagic) <==> OtherMagic(b, REQUEST_MAGIC)
  {
    hide ReadPreamble, ReadConfig, ReadTurns, OtherMagic;
    PreambleErrors(b, REQUEST_MAGIC);
    if ReadPreamble(b, REQUEST_MAGIC).Got? {
      var o := ReadPreamble(b, REQUEST_MAGIC).next;
      ConfigReads(b, o);
      if ReadConfig(b, o).Got? && ReadU32(b, ReadConfig(b, o).next).Got? {
        var count := ReadU32(b, ReadConfig(b, o).next);
        TurnsErrors(b, count.next, count.value);
      }
    }
  }

  lemma NeverWrongEvent(b: bytes)
    ensures ReadRequest(b) != Fail(WrongEvent)
  {
    hide ReadPreamble, ReadConfig, ReadTurns;
    PreambleReads(b, REQUEST_MAGIC);
    if ReadPreamble(b, REQUEST_MAGIC).Got? {
      var o := ReadPreamble(b, REQUEST_MAGIC).next;
      ConfigReads(b, o);
      if ReadConfig(b, o).Got? && ReadU32(b, ReadConfig(b, o).next).Got? {
        var count := ReadU32(b, ReadConfig(b, o).next);
        TurnsErrors(b, count.next, count.value);
      }
    }
  }

  lemma ConfigReads(b: bytes, o: nat)
    ensures ReadConfig(b, o).Got? || ReadConfig(b, o) == Fail(Truncated)
  {
  }

  /** The same for responses: another event, another magic string, or an end too soon. */
  lemma ResponseErrors(m: Message)
    ensures DecodeResponse(m) == Fail(WrongEvent) <==>
            m.event.name != [0x4C, 0x4C, 0x4D, 0x5F, 0x52, 0x45, 0x53, 0x50, 0x4F, 0x4E, 0x53, 0x45]
    ensures m.event.name == RESPONSE_EVENT ==>
            && (DecodeResponse(m) == Fail(BadMagic) <==> OtherMagic(m.event.payload, RESPONSE_MAGIC))
            && DecodeResponse(m) != Fail(BadRole)
  {
    hide At, Str, ReadStr, OtherMagic;
    var b := m.event.payload;
    PreambleErrors(b, RESPONSE_MAGIC);
    if ReadPreamble(b, RESPONSE_MAGIC).Got? {
      ReplyReads(b, ReadPreamble(b, RESPONSE_MAGIC).next);
    } else {
      PreambleReads(b, RESPONSE_MAGIC);
    }
  }

  lemma PreambleReads(b: bytes, magic: bytes)
    ensures ReadPreamble(b, magic).Got? || ReadPreamble(b, magic) == Fail(BadMagic) || ReadPreamble(b, magic) == Fail(Truncated)
  {
  }

  lemma ReplyReads(b: bytes, o: nat)
    ensures ReadReply(b, o).Got? || ReadReply(b, o) == Fail(Truncated)
  {
  }
}
