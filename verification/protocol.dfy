/**
 The packet layer (core/src/protocol.cpp): magic, version, type, 64-bit id and four length-prefixed
 fields, all big-endian. `Encode` and `Decode` say what the byte layout is; the methods write and read
 it field by field, as the C++ does.
 */
module Protocols {
  import opened Bytes
  import opened Messages

  const MAGIC: u32 := 0x4743_4C43 // "GCLC"
  const VERSION: nat := 1

  datatype ProtocolError =
    | MissingMagic | InvalidMagic | MissingVersion | UnsupportedVersion | MissingType | MissingId
    | InvalidSource | InvalidTarget | InvalidName | InvalidPayload

  /** A length-prefixed field. The prefix keeps only the low 32 bits of the length. */
  function Field(s: bytes): bytes {
    BigEndian(4, U32(|s|)) + s
  }

  function ReadField(b: bytes, o: nat, bad: ProtocolError): Parsed<bytes, ProtocolError> {
    var (size, start) :- ReadBE(b, o, 4, bad);
    if start + size > |b| then Fail(bad) else Got(b[start..start + size], start + size)
  }

  /** Two fields in a row. */
  function Pair(s: bytes, t: bytes): bytes {
    Field(s) + Field(t)
  }

  function ReadPair(b: bytes, o: nat, bad1: ProtocolError, bad2: ProtocolError): Parsed<(bytes, bytes), ProtocolError> {
    var (s, mid) :- ReadField(b, o, bad1);
    var (t, end) :- ReadField(b, mid, bad2);
    Got((s, t), end)
  }

  function Header(m: Message): bytes {
    BigEndian(4, MAGIC) + BigEndian(2, VERSION) + [m.kind] + BigEndian(8, m.id)
  }

  function Encode(m: Message): bytes {
    Header(m) + Pair(m.source, m.target) + Pair(m.event.name, m.event.payload)
  }

  /** The length of the encoding, whatever the prefixes say. */
  function Size(m: Message): nat {
    31 + |m.source| + |m.target| + |m.event.name| + |m.event.payload|
  }

  /** Every field fits its length prefix. */
  predicate Bounded(m: Message) {
    |m.source| < TWO32 && |m.target| < TWO32 && |m.event.name| < TWO32 && |m.event.payload| < TWO32
  }

  function DecodeHeader(b: bytes): Parsed<(byte, u64), ProtocolError> {
    var (magic, o1) :- ReadBE(b, 0, 4, MissingMagic);
    if magic != MAGIC then Fail(InvalidMagic) else
    var (version, o2) :- ReadBE(b, o1, 2, MissingVersion);
    if version != VERSION then Fail(UnsupportedVersion) else
    if o2 + 1 > |b| then Fail(MissingType) else
    var (id, o3) :- ReadBE(b, o2 + 1, 8, MissingId);
    Got((b[o2], U64(id)), o3)
  }

  /** The message standing at the start of `b`, and the length of its encoding. */
  function Decode(b: bytes): Parsed<Message, ProtocolError> {
    var (head, o0) :- DecodeHeader(b);
    var (route, o1) :- ReadPair(b, o0, InvalidSource, InvalidTarget);
    var (event, o2) :- ReadPair(b, o1, InvalidName, InvalidPayload);
    Got(Message(head.1, head.0, route.0, route.1, Event(event.0, event.1)), o2)
  }

  // ---------------------------------------------------------------------------------------------
  // What is accepted

  lemma FieldExact(b: bytes, o: nat, bad: ProtocolError, s: bytes, next: nat)
    ensures ReadField(b, o, bad) == Got(s, next) <==> |s| < TWO32 && next == o + 4 + |s| && At(b, o, Field(s))
  {
    Widths();
    AtConcat(b, o, BigEndian(4, U32(|s|)), s);
    ReadBEExact(b, o, 4, bad, |s|);
    if ReadField(b, o, bad) == Got(s, next) {
      ReadBEExact(b, o, 4, bad, ReadBE(b, o, 4, bad).value);
      assert ReadBE(b, o, 4, bad).value == |s|;
    }
  }

  /** Every field of an accepted packet ends where its prefix says. */
  lemma FieldEnds(b: bytes, o: nat, bad: ProtocolError)
    ensures ReadField(b, o, bad).Got? ==> ReadField(b, o, bad).next == o + 4 + |ReadField(b, o, bad).value|
  {
    if ReadField(b, o, bad).Got? {
      FieldExact(b, o, bad, ReadField(b, o, bad).value, ReadField(b, o, bad).next);
    }
  }

  lemma PairExact(b: bytes, o: nat, bad1: ProtocolError, bad2: ProtocolError, s: bytes, t: bytes, next: nat)
    ensures ReadPair(b, o, bad1, bad2) == Got((s, t), next) <==>
            |s| < TWO32 && |t| < TWO32 && next == o + 8 + |s| + |t| && At(b, o, Pair(s, t))
    ensures ReadPair(b, o, bad1, bad2).Got? ==>
            var r := ReadPair(b, o, bad1, bad2);
            r.next == o + 8 + |r.value.0| + |r.value.1|
  {
    var mid := o + 4 + |s|;
    assert |Field(s)| == 4 + |s|;
    hide Field, ReadField, At;
    AtConcat(b, o, Field(s), Field(t));
    FieldExact(b, o, bad1, s, mid);
    FieldExact(b, mid, bad2, t, next);
    FieldEnds(b, o, bad1);
    if ReadField(b, o, bad1).Got? {
      FieldEnds(b, ReadField(b, o, bad1).next, bad2);
    }
  }

  lemma HeaderExact(b: bytes, m: Message)
    ensures |Header(m)| == 15
    ensures DecodeHeader(b) == Got((m.kind, m.id), 15) <==> At(b, 0, Header(m))
    ensures DecodeHeader(b).Got? ==> DecodeHeader(b).next == 15
  {
    Widths();
    hide BigEndian;
    var magic, version, id := BigEndian(4, MAGIC), BigEndian(2, VERSION), BigEndian(8, m.id);
    AtConcat(b, 0, magic + version + [m.kind], id);
    AtConcat(b, 0, magic + version, [m.kind]);
    AtConcat(b, 0, magic, version);
    ReadBEExact(b, 0, 4, MissingMagic, MAGIC);
    ReadBEExact(b, 4, 2, MissingVersion, VERSION);
    ReadBEExact(b, 7, 8, MissingId, m.id);
    assert At(b, 6, [m.kind]) <==> 7 <= |b| && b[6] == m.kind;
    hide ReadBE, At, BigEndian;
  }

  /** Every packet starts with "GCLC", version 1 and the type byte. */
  lemma PacketStart(m: Message)
    ensures |Encode(m)| >= 7 && Encode(m)[..7] == [0x47, 0x43, 0x4C, 0x43, 0, 1, m.kind]
  {
    hide Pair, BigEndian;
    StartBytes();
    var start, id := BigEndian(4, MAGIC) + BigEndian(2, VERSION) + [m.kind], BigEndian(8, m.id);
    var route, event := Pair(m.source, m.target), Pair(m.event.name, m.event.payload);
    Assoc(start, id, route);
    Assoc(start, id + route, event);
    assert Encode(m) == start + (id + route + event);
  }

  lemma StartBytes()
    ensures BigEndian(4, MAGIC) + BigEndian(2, VERSION) == [0x47, 0x43, 0x4C, 0x43, 0, 1]
  {
    hide BigEndian;
    ShiftedDigits(MAGIC);
    ShiftedDigits(VERSION);
  }

  lemma EncodedSize(m: Message)
    ensures |Encode(m)| == Size(m)
  {
  }

  lemma Layout(b: bytes, m: Message)
    ensures Encode(m) <= b <==>
            && At(b, 0, Header(m)) && At(b, 15, Pair(m.source, m.target))
            && At(b, 23 + |m.source| + |m.target|, Pair(m.event.name, m.event.payload))
  {
    var h, r, e := Header(m), Pair(m.source, m.target), Pair(m.event.name, m.event.payload);
    HeaderExact(b, m);
    assert |r| == 8 + |m.source| + |m.target|;
    AtPrefix(b, Encode(m));
    hide Header, Pair, At;
    AtConcat(b, 0, h + r, e);
    AtConcat(b, 0, h, r);
  }

  /**
   Decoding accepts exactly the byte strings that start with the encoding of some message whose
   fields fit their prefixes, and returns that message.
   */
  lemma ExactAcceptance(b: bytes, m: Message, next: nat)
    ensures Decode(b) == Got(m, next) <==> Bounded(m) && next == Size(m) && Encode(m) <= b
  {
    hide Header, DecodeHeader, Pair, ReadPair, At, Encode;
    var o1 := 23 + |m.source| + |m.target|;
    EncodedSize(m);
    Layout(b, m);
    HeaderExact(b, m);
    PairExact(b, 15, InvalidSource, InvalidTarget, m.source, m.target, o1);
    PairExact(b, o1, InvalidName, InvalidPayload, m.event.name, m.event.payload, Size(m));
  }

  /** What `Decode(b).Got?` says about the bytes of `b`. */
  lemma AcceptedIsEncoded(b: bytes)
    ensures Decode(b).Got? ==>
            && Bounded(Decode(b).value) && Encode(Decode(b).value) <= b
            && Decode(b).next == Size(Decode(b).value) == |Encode(Decode(b).value)|
  {
    if Decode(b).Got? {
      ExactAcceptance(b, Decode(b).value, Decode(b).next);
      EncodedSize(Decode(b).value);
    }
  }

  /** A message survives encoding exactly when each of its four fields is shorter than 2^32 bytes. */
  lemma RoundTrip(m: Message)
    ensures |Encode(m)| == Size(m)
    ensures Decode(Encode(m)) == Got(m, Size(m)) <==> Bounded(m)
    ensures Decode(Encode(m)).Got? && Decode(Encode(m)).value == m ==> Bounded(m)
  {
    EncodedSize(m);
    ExactAcceptance(Encode(m), m, Size(m));
    AcceptedIsEncoded(Encode(m));
  }

  /** Bytes after an accepted packet change nothing. */
  lemma ExtensionStable(b: bytes, s: bytes)
    ensures Decode(b).Got? ==> Decode(b + s) == Decode(b)
  {
    if Decode(b).Got? {
      var m, n := Decode(b).value, Decode(b).next;
      ExactAcceptance(b, m, n);
      ExactAcceptance(b + s, m, n);
    }
  }

  /** No encoded packet is a prefix of another, so a message is determined by its packet. */
  lemma PrefixFree(m: Message, n: Message, s: bytes)
    requires Bounded(m) && Bounded(n)
    requires Encode(n) == Encode(m) + s
    ensures m == n && s == []
  {
    RoundTrip(m);
    RoundTrip(n);
    ExactAcceptance(Encode(n), m, Size(m));
  }

  lemma ConsumesNoMore(b: bytes)
    ensures Decode(b).Got? ==> Decode(b).next <= |b|
  {
    AcceptedIsEncoded(b);
  }

  /** Whatever packet an accepted byte string starts with, cutting that packet short makes it rejected. */
  lemma CutShortRejected(b: bytes, k: nat)
    requires Decode(b).Got? && k < Decode(b).next && k <= |b|
    ensures Decode(b[..k]).Fail?
  {
    var short := b[..k];
    assert b == short + b[k..];
    hide Decode;
    ConsumesNoMore(short);
    ExtensionStable(short, b[k..]);
  }

  /** No strict prefix of an encoded packet decodes. */
  lemma StrictPrefixRejected(m: Message, k: nat)
    requires Bounded(m) && k < |Encode(m)|
    ensures Decode(Encode(m)[..k]).Fail?
  {
    RoundTrip(m);
    CutShortRejected(Encode(m), k);
  }

  // ---------------------------------------------------------------------------------------------
  // Byte by byte

  /** A packet, piece by piece, each field behind its length. */
  lemma PacketBytes(m: Message)
    ensures Encode(m) == [0x47, 0x43, 0x4C, 0x43, 0, 1, m.kind] + BigEndian(8, m.id)
                         + BigEndian(4, |m.source| % TWO32) + m.source
                         + BigEndian(4, |m.target| % TWO32) + m.target
                         + BigEndian(4, |m.event.name| % TWO32) + m.event.name
                         + BigEndian(4, |m.event.payload| % TWO32) + m.event.payload
  {
    hide BigEndian;
    StartBytes();
    assert BigEndian(4, MAGIC) + BigEndian(2, VERSION) + [m.kind] == [0x47, 0x43, 0x4C, 0x43, 0, 1, m.kind];
  }

  /** One short packet: type 2, id 0x0102030405060708, from "a" to "bc", event "d" with payload "e". */
  lemma ShortPacket()
    ensures Encode(Message(0x0102_0304_0506_0708, 2, [0x61], [0x62, 0x63], Event([0x64], [0x65]))) ==
            [0x47, 0x43, 0x4C, 0x43, 0, 1, 2, 1, 2, 3, 4, 5, 6, 7, 8]
            + [0, 0, 0, 1, 0x61, 0, 0, 0, 2, 0x62, 0x63] + [0, 0, 0, 1, 0x64, 0, 0, 0, 1, 0x65]
  {
    var m := Message(0x0102_0304_0506_0708, 2, [0x61], [0x62, 0x63], Event([0x64], [0x65]));
    hide *;
    EightDigits();
    OneAndTwo();
    PacketBytes(m);
    var one, two: bytes := [0, 0, 0, 1], [0, 0, 0, 2];
    var head: bytes := [0x47, 0x43, 0x4C, 0x43, 0, 1, 2] + [1, 2, 3, 4, 5, 6, 7, 8];
    var route: bytes := one + [0x61] + two + [0x62, 0x63];
    var event: bytes := one + [0x64] + one + [0x65];
    FourBehind(head, one, [0x61], two, [0x62, 0x63]);
    FourBehind(head + route, one, [0x64], one, [0x65]);
    ShortPieces(one, two);
  }

  lemma ShortPieces(one: bytes, two: bytes)
    requires one == [0, 0, 0, 1] && two == [0, 0, 0, 2]
    ensures [0x47, 0x43, 0x4C, 0x43, 0, 1, 2] + [1, 2, 3, 4, 5, 6, 7, 8] ==
            [0x47, 0x43, 0x4C, 0x43, 0, 1, 2, 1, 2, 3, 4, 5, 6, 7, 8]
    ensures one + [0x61] + two + [0x62, 0x63] == [0, 0, 0, 1, 0x61, 0, 0, 0, 2, 0x62, 0x63]
    ensures one + [0x64] + one + [0x65] == [0, 0, 0, 1, 0x64, 0, 0, 0, 1, 0x65]
  {
  }

  lemma FourBehind(a: bytes, w: bytes, x: bytes, y: bytes, z: bytes)
    ensures a + w + x + y + z == a + (w + x + y + z)
  {
  }

  lemma OneAndTwo()
    ensures BigEndian(4, 1) == [0, 0, 0, 1] && BigEndian(4, 2) == [0, 0, 0, 2]
  {
    hide BigEndian;
    ShiftedDigits(1);
    ShiftedDigits(2);
  }

  lemma EightDigits()
    ensures BigEndian(8, 0x0102_0304_0506_0708) == [1, 2, 3, 4, 5, 6, 7, 8]
  {
    assert BigEndian(4, 0x0102_0304) == [1, 2, 3, 4];
    assert BigEndian(6, 0x0102_0304_0506) == [1, 2, 3, 4, 5, 6];
  }

  // ---------------------------------------------------------------------------------------------
  // Errors

  /** The first six bytes are "GCLC" and version 1. */
  predicate Marked(b: bytes) {
    |b| >= 6 && b[..6] == [0x47, 0x43, 0x4C, 0x43, 0, 1]
  }

  /** The field that starts at `o`, prefix or content, is cut off. */
  predicate CutOff(b: bytes, o: nat) {
    |b| < o + 4 || |b| < o + 4 + FromBigEndian(b[o..o + 4])
  }

  /** Where the field that starts at `o` ends. */
  function Behind(b: bytes, o: nat): nat
    requires o + 4 <= |b|
  {
    o + 4 + FromBigEndian(b[o..o + 4])
  }

  lemma MagicFour(b: bytes)
    requires |b| >= 4
    ensures FromBigEndian(b[0..4]) == MAGIC <==> b[..4] == [0x47, 0x43, 0x4C, 0x43]
    ensures |b| >= 6 ==> (FromBigEndian(b[4..6]) == VERSION <==> b[4..6] == [0, 1])
  {
    hide BigEndian;
    StartBytes();
    Widths();
    var start := BigEndian(4, MAGIC) + BigEndian(2, VERSION);
    assert start[..4] == [0x47, 0x43, 0x4C, 0x43] && start[4..] == [0, 1];
    assert BigEndian(4, MAGIC) == start[..4] && BigEndian(2, VERSION) == start[4..];
    assert b[0..4] == b[..4];
    BigEndianExact(b[0..4], MAGIC);
    if |b| >= 6 {
      BigEndianExact(b[4..6], VERSION);
    }
  }

  lemma HeaderErrors(b: bytes)
    ensures DecodeHeader(b) == Fail(MissingMagic) <==> |b| < 4
    ensures DecodeHeader(b) == Fail(InvalidMagic) <==> |b| >= 4 && b[..4] != [0x47, 0x43, 0x4C, 0x43]
    ensures DecodeHeader(b) == Fail(MissingVersion) <==> 4 <= |b| < 6 && b[..4] == [0x47, 0x43, 0x4C, 0x43]
    ensures DecodeHeader(b) == Fail(UnsupportedVersion) <==>
            |b| >= 6 && b[..4] == [0x47, 0x43, 0x4C, 0x43] && b[4..6] != [0, 1]
    ensures DecodeHeader(b) == Fail(MissingType) <==> Marked(b) && |b| < 7
    ensures DecodeHeader(b) == Fail(MissingId) <==> Marked(b) && 7 <= |b| < 15
    ensures DecodeHeader(b).Got? <==> Marked(b) && |b| >= 15
    ensures DecodeHeader(b).Got? ==> DecodeHeader(b).next == 15
  {
    hide FromBigEndian;
    if |b| >= 4 {
      MagicFour(b);
    }
    if |b| >= 6 {
      assert b[..6] == b[..4] + b[4..6];
    }
  }

  lemma FieldErrors(b: bytes, o: nat, bad: ProtocolError)
    ensures ReadField(b, o, bad) == if CutOff(b, o) then Fail(bad) else Got(b[o + 4..Behind(b, o)], Behind(b, o))
  {
    hide FromBigEndian;
  }

  /** Which byte strings are rejected with which error: the header's, or that of the first field that is cut off. */
  lemma DecodeErrors(b: bytes)
    ensures DecodeHeader(b).Fail? ==> Decode(b) == Fail(DecodeHeader(b).error)
    ensures DecodeHeader(b).Got? ==>
            && (Decode(b) == Fail(InvalidSource) <==> CutOff(b, 15))
            && (!CutOff(b, 15) ==>
                var o1 := Behind(b, 15);
                && (Decode(b) == Fail(InvalidTarget) <==> CutOff(b, o1))
                && (!CutOff(b, o1) ==>
                    var o2 := Behind(b, o1);
                    && (Decode(b) == Fail(InvalidName) <==> CutOff(b, o2))
                    && (!CutOff(b, o2) ==>
                        (Decode(b) == Fail(InvalidPayload) <==> CutOff(b, Behind(b, o2))))))
  {
    hide FromBigEndian, DecodeHeader, ReadField, CutOff, Behind;
    HeaderErrors(b);
    FieldErrors(b, 15, InvalidSource);
    if !CutOff(b, 15) {
      CutOffShort(b, 15);
      var o1 := Behind(b, 15);
      FieldErrors(b, o1, InvalidTarget);
      if !CutOff(b, o1) {
        CutOffShort(b, o1);
        var o2 := Behind(b, o1);
        FieldErrors(b, o2, InvalidName);
        if !CutOff(b, o2) {
          CutOffShort(b, o2);
          FieldErrors(b, Behind(b, o2), InvalidPayload);
        }
      }
    }
  }

  lemma CutOffShort(b: bytes, o: nat)
    ensures !CutOff(b, o) ==> o + 4 <= |b|
  {
  }

  // ---------------------------------------------------------------------------------------------
  // The code

  method WriteU16(out: bytes, value: nat) returns (r: bytes)
    requires value < 0x1_0000
    ensures r == out + BigEndian(2, value)
  {
    r := out + [value / 0x100 % 256];
    r := r + [value % 256];
    ShiftedDigits(value);
  }

  method WriteU32(out: bytes, value: u32) returns (r: bytes)
    ensures r == out + BigEndian(4, value)
  {
    r := out;
    r := r + [value / 0x100_0000 % 256];
    r := r + [value / 0x1_0000 % 256];
    r := r + [value / 0x100 % 256];
    r := r + [value % 256];
    ShiftedDigits(value);
  }

  /** `value >> 8 * count`. */
  function ShiftBytes(value: nat, count: nat): nat {
    if count == 0 then value else ShiftBytes(value, count - 1) / 256
  }

  method WriteU64(out: bytes, value: u64) returns (r: bytes)
    ensures r == out + BigEndian(8, value)
  {
    r := out;
    var shift := 7; // in bytes
    ghost var top := ShiftBytes(value, 8);
    while shift >= 0
      invariant -1 <= shift <= 7
      invariant |r| == |out| + 7 - shift
      invariant r == out + BigEndian(7 - shift, ShiftBytes(value, shift + 1))
    {
      r := r + [ShiftBytes(value, shift) % 256];
      shift := shift - 1;
    }
  }

  method WriteField(out: bytes, value: bytes) returns (r: bytes)
    ensures r == out + Field(value)
  {
    r := WriteU32(out, U32(|value|));
    r := r + value;
  }

  method WriteHeader(m: Message) returns (out: bytes)
    ensures out == Header(m)
  {
    out := WriteU32([], MAGIC);
    out := WriteU16(out, VERSION);
    out := out + [m.kind];
    out := WriteU64(out, m.id);
  }

  method EncodeMessage(m: Message) returns (out: bytes)
    ensures out == Encode(m)
  {
    hide Header, Field;
    out := WriteHeader(m);
    out := WriteField(out, m.source);
    out := WriteField(out, m.target);
    assert out == Header(m) + Pair(m.source, m.target);
    out := WriteField(out, m.event.name);
    out := WriteField(out, m.event.payload);
    assert out == Header(m) + Pair(m.source, m.target) + Pair(m.event.name, m.event.payload);
  }

  method ReadU16(b: bytes, offset: nat) returns (ok: bool, next: nat, value: nat)
    ensures ok <==> offset + 2 <= |b|
    ensures ok ==> next == offset + 2 && value == FromBigEndian(b[offset..offset + 2])
  {
    if offset + 2 > |b| {
      return false, offset, 0;
    }
    WeighedDigits(b[offset..offset + 2]);
    return true, offset + 2, Join4(0, 0, b[offset], b[offset + 1]);
  }

  method ReadU32(b: bytes, offset: nat) returns (ok: bool, next: nat, value: nat)
    ensures ok <==> offset + 4 <= |b|
    ensures ok ==> next == offset + 4 && value == FromBigEndian(b[offset..offset + 4])
  {
    if offset + 4 > |b| {
      return false, offset, 0;
    }
    WeighedDigits(b[offset..offset + 4]);
    return true, offset + 4, Join4(b[offset], b[offset + 1], b[offset + 2], b[offset + 3]);
  }

  /** The 64-bit shift in the loop drops nothing, because `i` bytes are less than `256^i`. */
  method ReadU64(b: bytes, offset: nat) returns (ok: bool, next: nat, value: u64)
    ensures ok <==> offset + 8 <= |b|
    ensures ok ==> next == offset + 8 && value == FromBigEndian(b[offset..offset + 8])
  {
    if offset + 8 > |b| {
      return false, offset, 0;
    }
    value := 0;
    Widths();
    for i := 0 to 8
      invariant value == FromBigEndian(b[offset..offset + i])
    {
      ghost var read := b[offset..offset + i + 1];
      assert read[..i] == b[offset..offset + i];
      BigEndianExact(read, FromBigEndian(read));
      PowMonotone(i + 1, 8);
      value := U64(value * 256) + b[offset + i];
    }
    return true, offset + 8, value;
  }

  lemma PowMonotone(i: nat, j: nat)
    requires i <= j
    ensures Pow256(i) <= Pow256(j)
  {
  }

  method ReadString(b: bytes, offset: nat, ghost bad: ProtocolError) returns (ok: bool, next: nat, value: bytes)
    ensures ok <==> ReadField(b, offset, bad).Got?
    ensures ok ==> ReadField(b, offset, bad) == Got(value, next)
  {
    var sizeOk, start, size := ReadU32(b, offset);
    if !sizeOk {
      return false, start, [];
    }
    if start + size > |b| {
      return false, start, [];
    }
    return true, start + size, b[start..start + size];
  }

  method DecodeMessage(b: bytes) returns (decoded: Result<Message, ProtocolError>)
    ensures match Decode(b)
            case Got(m, _) => decoded == Ok(m)
            case Fail(error) => decoded == Err(error)
  {
    var magicOk, o1, magic := ReadU32(b, 0);
    if !magicOk {
      return Err(MissingMagic);
    }
    if magic != MAGIC {
      return Err(InvalidMagic);
    }
    var versionOk, o2, version := ReadU16(b, o1);
    if !versionOk {
      return Err(MissingVersion);
    }
    if version != VERSION {
      return Err(UnsupportedVersion);
    }
    if o2 + 1 > |b| {
      return Err(MissingType);
    }
    var kind := b[o2];
    var idOk, o3, id := ReadU64(b, o2 + 1);
    if !idOk {
      return Err(MissingId);
    }
    var sourceOk, o4, source := ReadString(b, o3, InvalidSource);
    if !sourceOk {
      return Err(InvalidSource);
    }
    var targetOk, o5, target := ReadString(b, o4, InvalidTarget);
    if !targetOk {
      return Err(InvalidTarget);
    }
    var nameOk, o6, name := ReadString(b, o5, InvalidName);
    if !nameOk {
      return Err(InvalidName);
    }
    var payloadOk, _, payload := ReadString(b, o6, InvalidPayload);
    if !payloadOk {
      return Err(InvalidPayload);
    }
    return Ok(Message(id, kind, source, target, Event(name, payload)));
  }
}
