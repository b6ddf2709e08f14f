/**
 The frame layer (core/src/frame.cpp): magic, 32-bit payload size, payload, additive checksum.
 `Encode` and `Decode` say what the byte layout is; the methods below them build and take apart
 a frame step by step, as the C++ does.
 */
module Frames {
  import opened Bytes

  const MAGIC: u32 := 0x4746_4D45 // "GFME"

  datatype FrameError = MissingMagic | InvalidMagic | MissingSize | IncompleteFrame | MissingChecksum | ChecksumMismatch

  function ByteSum(s: bytes): nat {
    if s == [] then 0 else ByteSum(s[..|s| - 1]) + s[|s| - 1]
  }

  /** The sum of the bytes in 32-bit unsigned arithmetic. */
  function Checksum(s: bytes): u32 {
    U32(ByteSum(s))
  }

  function Encode(payload: bytes): bytes {
    BigEndian(4, MAGIC) + BigEndian(4, U32(|payload|)) + payload + BigEndian(4, Checksum(payload))
  }

  /** The payload of a frame standing at the start of `b`, and the length of that frame. */
  function Decode(b: bytes): Parsed<bytes, FrameError> {
    var (magic, _) :- ReadBE(b, 0, 4, MissingMagic);
    if magic != MAGIC then Fail(InvalidMagic) else
    var (size, _) :- ReadBE(b, 4, 4, MissingSize);
    if 8 + size + 4 > |b| then Fail(IncompleteFrame) else
    var payload := b[8..8 + size];
    var (expected, next) :- ReadBE(b, 8 + size, 4, MissingChecksum);
    if Checksum(payload) != expected then Fail(ChecksumMismatch) else
    Got(payload, next)
  }

  // ---------------------------------------------------------------------------------------------
  // The code

  method WriteU32(out: bytes, value: u32) returns (r: bytes)
    ensures r == out + BigEndian(4, value)
  {
    r := out;
    r := r + [value / 0x100_0000 % 256];
    r := r + [value / 0x1_0000 % 256];
    r := r + [value / 0x100 % 256];
    r := r + [value % 256];
    ShiftedDigits(value);
  }

  method ReadU32(b: bytes, offset: nat) returns (ok: bool, value: u32)
    ensures ok <==> offset + 4 <= |b|
    ensures ok ==> value == FromBigEndian(b[offset..offset + 4])
  {
    if offset + 4 > |b| {
      return false, 0;
    }
    WeighedDigits(b[offset..offset + 4]);
    ReadBEExact(b, offset, 4, MissingMagic, 0);
    Widths();
    return true, Join4(b[offset], b[offset + 1], b[offset + 2], b[offset + 3]);
  }

  method ComputeChecksum(s: bytes) returns (sum: u32)
    ensures sum == Checksum(s)
  {
    sum := 0;
    for i := 0 to |s|
      invariant sum == Checksum(s[..i])
    {
      assert s[..i + 1][..i] == s[..i];
      sum := U32(sum + s[i]);
    }
    assert s[..|s|] == s;
  }

  method EncodeFrame(payload: bytes) returns (out: bytes)
    ensures out == Encode(payload)
  {
    out := [];
    out := WriteU32(out, MAGIC);
    out := WriteU32(out, U32(|payload|));
    out := out + payload;
    var sum := ComputeChecksum(payload);
    out := WriteU32(out, sum);
  }

  method DecodeFrame(frame: bytes) returns (decoded: Result<bytes, FrameError>)
    ensures match Decode(frame)
            case Got(payload, _) => decoded == Ok(payload)
            case Fail(error) => decoded == Err(error)
    ensures decoded != Err(MissingChecksum)
  {
    var ok, magic := ReadU32(frame, 0);
    if !ok {
      return Err(MissingMagic);
    }
    if magic != MAGIC {
      return Err(InvalidMagic);
    }
    var sizeOk, size := ReadU32(frame, 4);
    if !sizeOk {
      return Err(MissingSize);
    }
    var payloadStart: nat := 8;
    var checksumStart: nat := payloadStart + size;
    if checksumStart + 4 > |frame| {
      return Err(IncompleteFrame);
    }
    var payload := frame[payloadStart..checksumStart];
    var expectedOk, expected := ReadU32(frame, checksumStart);
    if !expectedOk {
      return Err(MissingChecksum);
    }
    var sum := ComputeChecksum(payload);
    if sum != expected {
      return Err(ChecksumMismatch);
    }
    return Ok(payload);
  }

  // ---------------------------------------------------------------------------------------------
  // What is accepted

  /** The pieces of an encoded frame, each at its offset. */
  lemma Layout(b: bytes, p: bytes)
    ensures |Encode(p)| == |p| + 12
    ensures Encode(p) <= b <==>
            && At(b, 0, BigEndian(4, MAGIC)) && At(b, 4, BigEndian(4, U32(|p|)))
            && At(b, 8, p) && At(b, 8 + |p|, BigEndian(4, Checksum(p)))
  {
    var m, s := BigEndian(4, MAGIC), BigEndian(4, U32(|p|));
    AtPrefix(b, Encode(p));
    AtConcat(b, 0, m + s + p, BigEndian(4, Checksum(p)));
    AtConcat(b, 0, m + s, p);
    AtConcat(b, 0, m, s);
  }

  /** The empty frame, byte by byte: "GFME", size 0, checksum 0. */
  lemma EmptyFrame()
    ensures Encode([]) == [0x47, 0x46, 0x4D, 0x45, 0, 0, 0, 0, 0, 0, 0, 0]
  {
    hide BigEndian;
    MagicBytes();
    ShiftedDigits(0);
    assert Checksum([]) == 0;
  }

  /** A frame, piece by piece: "GFME", the size, the payload, the checksum, both integers most significant byte first. */
  lemma FrameBytes(p: bytes)
    ensures var n, c := |p| % TWO32, Checksum(p);
            Encode(p) == [0x47, 0x46, 0x4D, 0x45]
                         + [n / 0x100_0000 % 256, n / 0x1_0000 % 256, n / 0x100 % 256, n % 256]
                         + p
                         + [c / 0x100_0000 % 256, c / 0x1_0000 % 256, c / 0x100 % 256, c % 256]
  {
    hide BigEndian, Checksum;
    MagicBytes();
    ShiftedDigits(|p| % TWO32);
    ShiftedDigits(Checksum(p));
  }

  lemma MagicBytes()
    ensures BigEndian(4, MAGIC) == [0x47, 0x46, 0x4D, 0x45]
  {
    hide BigEndian;
    ShiftedDigits(MAGIC);
  }

  /** Decoding accepts exactly the byte strings that start with an encoded frame, and returns its payload. */
  lemma {:induction false} ExactAcceptance(b: bytes, p: bytes, next: nat)
    ensures Decode(b) == Got(p, next) <==> |p| < TWO32 && next == |p| + 12 && Encode(p) <= b
  {
    Layout(b, p);
    Widths();
    ReadBEExact(b, 0, 4, MissingMagic, MAGIC);
    ReadBEExact(b, 4, 4, MissingSize, |p|);
    ReadBEExact(b, 8 + |p|, 4, MissingChecksum, Checksum(p));
    if Decode(b) == Got(p, next) {
      ReadBEExact(b, 4, 4, MissingSize, ReadBE(b, 4, 4, MissingSize).value);
      assert ReadBE(b, 4, 4, MissingSize).value == |p|;
    }
  }

  /** What `Decode(b).Got?` says about the bytes of `b`. */
  lemma AcceptedIsEncoded(b: bytes)
    ensures Decode(b).Got? ==>
            var p := Decode(b).value;
            && |p| < TWO32 && Decode(b).next == |Encode(p)| == |p| + 12 && Encode(p) <= b
            && At(b, 0, BigEndian(4, MAGIC)) && At(b, 4, BigEndian(4, |p|))
            && At(b, 8, p) && At(b, 8 + |p|, BigEndian(4, Checksum(p)))
  {
    if Decode(b).Got? {
      ExactAcceptance(b, Decode(b).value, Decode(b).next);
      Layout(b, Decode(b).value);
    }
  }

  /** A frame decodes to its payload exactly when the 32-bit size field can hold the payload size. */
  lemma RoundTrip(p: bytes)
    ensures Decode(Encode(p)) == Got(p, |Encode(p)|) <==> |p| < TWO32
    ensures (exists n :: Decode(Encode(p)) == Got(p, n)) ==> |p| < TWO32
  {
    Layout(Encode(p), p);
    ExactAcceptance(Encode(p), p, |Encode(p)|);
    forall n | Decode(Encode(p)) == Got(p, n)
      ensures |p| < TWO32
    {
      ExactAcceptance(Encode(p), p, n);
    }
  }

  /** Bytes after an accepted frame change nothing. */
  lemma ExtensionStable(b: bytes, s: bytes)
    ensures Decode(b).Got? ==> Decode(b + s) == Decode(b)
  {
    if Decode(b).Got? {
      var p, n := Decode(b).value, Decode(b).next;
      ExactAcceptance(b, p, n);
      ExactAcceptance(b + s, p, n);
    }
  }

  /** No encoded frame is a prefix of another, so a payload is determined by its frame. */
  lemma PrefixFree(p: bytes, q: bytes, s: bytes)
    requires |p| < TWO32 && |q| < TWO32
    requires Encode(q) == Encode(p) + s
    ensures p == q && s == []
  {
    RoundTrip(q);
    Layout(Encode(q), q);
    Layout(Encode(p), p);
    ExactAcceptance(Encode(q), p, |p| + 12);
  }

  lemma ConsumesNoMore(b: bytes)
    ensures Decode(b).Got? ==> Decode(b).next <= |b|
  {
    AcceptedIsEncoded(b);
  }

  /** Whatever frame an accepted byte string starts with, cutting that frame short makes it rejected. */
  lemma CutShortRejected(b: bytes, k: nat)
    requires Decode(b).Got? && k < Decode(b).next && k <= |b|
    ensures Decode(b[..k]).Fail?
  {
    var short := b[..k];
    assert b == short + b[k..];
    hide Decode;
    ConsumesNoMore(short);
    ExtensionStable(short, b[k..]);
  }

  /** No strict prefix of an encoded frame decodes. */
  lemma StrictPrefixRejected(p: bytes, k: nat)
    requires |p| < TWO32 && k < |Encode(p)|
    ensures Decode(Encode(p)[..k]).Fail?
  {
    RoundTrip(p);
    CutShortRejected(Encode(p), k);
  }

  // ---------------------------------------------------------------------------------------------
  // Errors

  /** The first four bytes are "GFME". */
  predicate Marked(b: bytes) {
    |b| >= 4 && b[..4] == [0x47, 0x46, 0x4D, 0x45]
  }

  lemma MarkedIsMagic(b: bytes)
    requires |b| >= 4
    ensures FromBigEndian(b[0..4]) == MAGIC <==> Marked(b)
  {
    hide BigEndian;
    BigEndianExact(b[0..4], MAGIC);
    MagicBytes();
    Widths();
    assert b[0..4] == b[..4];
  }

  /** Which byte strings are rejected with which error; that the checksum is missing is never reported. */
  lemma DecodeErrors(b: bytes)
    ensures Decode(b) == Fail(MissingMagic) <==> |b| < 4
    ensures Decode(b) == Fail(InvalidMagic) <==> |b| >= 4 && !Marked(b)
    ensures Decode(b) == Fail(MissingSize) <==> Marked(b) && |b| < 8
    ensures Decode(b) == Fail(IncompleteFrame) <==> Marked(b) && |b| >= 8 && |b| < FromBigEndian(b[4..8]) + 12
    ensures Decode(b) == Fail(ChecksumMismatch) <==>
            && Marked(b) && |b| >= 8 && |b| >= FromBigEndian(b[4..8]) + 12
            && var n := FromBigEndian(b[4..8]); FromBigEndian(b[8 + n..12 + n]) != Checksum(b[8..8 + n])
    ensures Decode(b) != Fail(MissingChecksum)
  {
    hide FromBigEndian, Checksum;
    if |b| >= 4 {
      MarkedIsMagic(b);
    }
  }

  // ---------------------------------------------------------------------------------------------
  // Error detection

  lemma {:induction false} ByteSumConcat(a: bytes, b: bytes)
    ensures ByteSum(a + b) == ByteSum(a) + ByteSum(b)
    decreases |b|
  {
    if b == [] {
      assert a + b == a;
    } else {
      ByteSumConcat(a, b[..|b| - 1]);
      assert (a + b)[..|a + b| - 1] == a + b[..|b| - 1];
    }
  }

  /** The checksum of no bytes, of one byte, and of two byte strings end to end: all there is to it. */
  lemma ChecksumAdds(a: bytes, b: bytes, x: byte)
    ensures Checksum([]) == 0 && Checksum([x]) == x
    ensures Checksum(a + b) == (Checksum(a) + Checksum(b)) % TWO32
  {
    ByteSumConcat(a, b);
    assert ByteSum([]) == 0;
    assert [x][..0] == [];
  }

  lemma {:induction false} ByteSumUpdate(s: bytes, i: nat, x: byte)
    requires i < |s|
    ensures ByteSum(s[i := x]) == ByteSum(s) - s[i] + x
  {
    var front := s[..|s| - 1];
    if i == |s| - 1 {
      assert s[i := x][..|s| - 1] == front;
    } else {
      ByteSumUpdate(front, i, x);
      assert s[i := x][..|s| - 1] == front[i := x];
    }
  }

  /** A single byte changes the sum by less than 256, so the checksum notices it. */
  lemma ChecksumNotices(s: bytes, i: nat, x: byte)
    requires i < |s| && x != s[i]
    ensures Checksum(s[i := x]) != Checksum(s)
  {
    ByteSumUpdate(s, i, x);
  }

  /** With magic and size in place, it is the checksum behind `n` payload bytes that decides. */
  lemma DecodeBySize(g: bytes, n: u32)
    requires At(g, 0, BigEndian(4, MAGIC)) && At(g, 4, BigEndian(4, n))
    ensures Decode(g).Got? <==> n + 12 <= |g| && At(g, 8 + n, BigEndian(4, Checksum(g[8..8 + n])))
    ensures Decode(g).Got? ==> Decode(g) == Got(g[8..8 + n], n + 12)
    ensures n + 12 > |g| ==> Decode(g) == Fail(IncompleteFrame)
  {
    Widths();
    ReadBEExact(g, 0, 4, MissingMagic, MAGIC);
    ReadBEExact(g, 4, 4, MissingSize, n);
    if n + 12 <= |g| {
      ReadBEExact(g, 8 + n, 4, MissingChecksum, Checksum(g[8..8 + n]));
    }
  }

  lemma ChecksumsAgree(b: bytes, o: nat, x: u32, y: u32)
    requires At(b, o, BigEndian(4, x))
    ensures At(b, o, BigEndian(4, y)) <==> x == y
  {
    Widths();
    BigEndianExact(b[o..o + 4], x);
    BigEndianExact(b[o..o + 4], y);
  }

  /** Where the payload of a frame is replaced by one of equal length, exactly the checksum tells. */
  lemma PayloadSwap(p: bytes, q: bytes)
    requires |p| == |q| < TWO32
    ensures |Encode(p)| == |p| + 12
    ensures Decode(Encode(p)[..8] + q + Encode(p)[8 + |p|..]).Got? <==> Checksum(p) == Checksum(q)
  {
    var f := Encode(p);
    Layout(f, p);
    var g := f[..8] + q + f[8 + |p|..];
    hide Encode, Decode;
    assert g[0..4] == f[0..4] && g[4..8] == f[4..8] && g[8..8 + |q|] == q;
    assert g[8 + |p|..12 + |p|] == f[8 + |p|..12 + |p|];
    DecodeBySize(g, |q|);
    ChecksumsAgree(g, 8 + |q|, Checksum(p), Checksum(q));
  }

  lemma MagicChanged(p: bytes, i: nat, x: byte)
    requires i < 4 && x != Encode(p)[i]
    ensures Decode(Encode(p)[i := x]).Fail?
  {
    var f := Encode(p);
    var g := f[i := x];
    Layout(f, p);
    AcceptedIsEncoded(g);
    assert f[0..4][i] != g[0..4][i];
  }

  lemma UpdateMiddle(f: bytes, from: nat, to: nat, i: nat, x: byte)
    requires from <= to <= |f| && i < to - from
    ensures f[from + i := x] == f[..from] + f[from..to][i := x] + f[to..]
    ensures f[from + i] == f[from..to][i]
  {
  }

  lemma PayloadByteChanged(p: bytes, i: nat, x: byte)
    requires |p| < TWO32 && i < |p| && x != p[i]
    ensures |Encode(p)| == |p| + 12 && Encode(p)[8 + i] == p[i]
    ensures Decode(Encode(p)[8 + i := x]).Fail?
  {
    var f := Encode(p);
    Layout(f, p);
    ChecksumNotices(p, i, x);
    PayloadSwap(p, p[i := x]);
    assert f[8..8 + |p|] == p;
    hide *;
    UpdateMiddle(f, 8, 8 + |p|, i, x);
    assert f[8 + i := x] == f[..8] + p[i := x] + f[8 + |p|..];
  }

  lemma ChecksumByteChanged(p: bytes, i: nat, x: byte)
    requires |p| < TWO32 && i < 4 && |Encode(p)| == |p| + 12 && x != Encode(p)[8 + |p| + i]
    ensures Decode(Encode(p)[8 + |p| + i := x]).Fail?
  {
    var f := Encode(p);
    var g := f[8 + |p| + i := x];
    Layout(f, p);
    hide Encode, Decode;
    assert g[0..4] == f[0..4] && g[4..8] == f[4..8] && g[8..8 + |p|] == f[8..8 + |p|];
    assert f[8 + |p|..12 + |p|][i] != g[8 + |p|..12 + |p|][i];
    DecodeBySize(g, |p|);
  }

  /** Changing one byte of the magic number, of the payload or of the checksum is always noticed. */
  lemma OneByteChanged(p: bytes, i: nat, x: byte)
    requires |p| < TWO32 && i < |Encode(p)| && x != Encode(p)[i]
    requires i < 4 || 8 <= i
    ensures Decode(Encode(p)[i := x]).Fail?
  {
    Layout(Encode(p), p);
    if i < 4 {
      MagicChanged(p, i, x);
    } else if i < 8 + |p| {
      assert Encode(p)[8..8 + |p|][i - 8] == p[i - 8];
      PayloadByteChanged(p, i - 8, x);
    } else {
      ChecksumByteChanged(p, i - 8 - |p|, x);
    }
  }

  function WithSize(f: bytes, n: u32): bytes
    requires |f| >= 8
  {
    f[..4] + BigEndian(4, n) + f[8..]
  }

  lemma WithSizeSlices(f: bytes, n: u32)
    requires |f| >= 12
    ensures var g := WithSize(f, n);
            && |g| == |f| && g[0..4] == f[0..4] && g[4..8] == BigEndian(4, n)
            && (n + 12 <= |f| ==> g[8..8 + n] == f[8..8 + n] && g[8 + n..12 + n] == f[8 + n..12 + n])
  {
  }

  /**
   A frame whose size field was overwritten by `n` is accepted exactly when `n` is no larger than the
   payload and the four bytes after the shortened payload happen to be its checksum. A size that grew
   is always noticed.
   */
  lemma SizeOverwritten(p: bytes, n: u32)
    requires |p| < TWO32
    ensures |Encode(p)| == |p| + 12
    ensures Decode(WithSize(Encode(p), n)).Got? <==>
            n <= |p| && At(Encode(p), 8 + n, BigEndian(4, Checksum(p[..n])))
    ensures Decode(WithSize(Encode(p), n)).Got? ==> Decode(WithSize(Encode(p), n)) == Got(p[..n], n + 12)
    ensures n > |p| ==> Decode(WithSize(Encode(p), n)) == Fail(IncompleteFrame)
  {
    var f := Encode(p);
    Layout(f, p);
    var g := WithSize(f, n);
    hide Encode, Decode;
    WithSizeSlices(f, n);
    DecodeBySize(g, n);
    if n <= |p| {
      assert f[8..8 + n] == f[8..8 + |p|][..n];
    }
  }

  /** A size field that shrank can go unnoticed: four zero bytes pass for the checksum of nothing. */
  lemma SizeShrunkUnnoticed()
    ensures |Encode([0, 0, 0, 0])| == 16
    ensures Decode(WithSize(Encode([0, 0, 0, 0]), 0)) == Got([], 12)
  {
    var p: bytes := [0, 0, 0, 0];
    var f := Encode(p);
    Layout(f, p);
    hide Encode, Decode;
    assert p[..0] == [] && Checksum([]) == 0;
    ShiftedDigits(0);
    SizeOverwritten(p, 0);
  }
}
