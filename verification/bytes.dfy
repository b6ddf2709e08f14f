/** Byte strings, fixed-width integers in both byte orders, and results of reading from a byte string. */
module Bytes {

  type byte = b: int | 0 <= b < 256
  type bytes = seq<byte>

  const TWO31: nat := 0x8000_0000
  const TWO32: nat := 0x1_0000_0000
  const TWO64: nat := 0x1_0000_0000_0000_0000

  type u32 = n: int | 0 <= n < TWO32
  type u64 = n: int | 0 <= n < TWO64

  datatype Option<+T> = None | Some(value: T)

  datatype Result<+T, +E> = Ok(value: T) | Err(error: E) {
    predicate IsFailure() { Err? }

    function PropagateFailure<U>(): Result<U, E>
      requires Err?
    {
      Err(error)
    }

    function Extract(): T
      requires Ok?
    {
      value
    }
  }

  /** A value read from a byte string, with the offset just past it. */
  datatype Parsed<+T, +E> = Fail(error: E) | Got(value: T, next: nat) {
    predicate IsFailure() { Fail? }

    function PropagateFailure<U>(): Parsed<U, E>
      requires Fail?
    {
      Fail(error)
    }

    function Extract(): (T, nat)
      requires Got?
    {
      (value, next)
    }
  }

  /** `static_cast<std::uint32_t>`: only the low 32 bits survive. */
  function U32(n: int): (r: u32)
    ensures 0 <= n < TWO32 ==> r == n
  {
    n % TWO32
  }

  /** `std::size_t` arithmetic: only the low 64 bits survive. */
  function U64(n: int): (r: u64)
    ensures 0 <= n < TWO64 ==> r == n
  {
    n % TWO64
  }

  function Min(a: int, b: int): int {
    if a <= b then a else b
  }

  function Max(a: int, b: int): int {
    if a >= b then a else b
  }

  // ---------------------------------------------------------------------------------------------
  // Fixed-width integers

  function Pow256(n: nat): (p: nat)
    ensures p > 0
  {
    if n == 0 then 1 else 256 * Pow256(n - 1)
  }

  function BigEndian(width: nat, value: nat): (s: bytes)
    ensures |s| == width
  {
    if width == 0 then [] else BigEndian(width - 1, value / 256) + [value % 256]
  }

  function FromBigEndian(s: bytes): nat {
    if s == [] then 0 else FromBigEndian(s[..|s| - 1]) * 256 + s[|s| - 1]
  }

  function LittleEndian(width: nat, value: nat): (s: bytes)
    ensures |s| == width
  {
    if width == 0 then [] else [value % 256] + LittleEndian(width - 1, value / 256)
  }

  function FromLittleEndian(s: bytes): nat {
    if s == [] then 0 else s[0] + 256 * FromLittleEndian(s[1..])
  }

  /** Reading and writing a big-endian integer are inverse, and nothing else reads as the value. */
  lemma {:induction false} BigEndianExact(s: bytes, v: nat)
    ensures FromBigEndian(s) == v <==> v < Pow256(|s|) && s == BigEndian(|s|, v)
  {
    if s != [] {
      var front := s[..|s| - 1];
      BigEndianExact(front, v / 256);
      assert s == front + [s[|s| - 1]];
      if s == BigEndian(|s|, v) {
        assert front == BigEndian(|s| - 1, v / 256);
        assert s[|s| - 1] == v % 256;
      }
    }
  }

  /** Reading and writing a little-endian integer are inverse, and nothing else reads as the value. */
  lemma {:induction false} LittleEndianExact(s: bytes, v: nat)
    ensures FromLittleEndian(s) == v <==> v < Pow256(|s|) && s == LittleEndian(|s|, v)
  {
    if s != [] {
      var rest := s[1..];
      LittleEndianExact(rest, v / 256);
      assert s == [s[0]] + rest;
      if s == LittleEndian(|s|, v) {
        assert s[0] == v % 256;
        assert rest == LittleEndian(|s| - 1, v / 256);
      }
    }
  }

  lemma Widths()
    ensures Pow256(1) == 256 && Pow256(2) == 0x1_0000 && Pow256(4) == TWO32 && Pow256(8) == TWO64
  {
    assert Pow256(3) == 0x100_0000;
    assert Pow256(5) == 256 * TWO32;
    assert Pow256(6) == 0x1_0000 * TWO32;
    assert Pow256(7) == 0x100_0000 * TWO32;
  }

  lemma DivideTwice(v: nat, p: nat)
    requires p > 0
    ensures v / 256 / p == v / (256 * p)
  {
    var q, r := v / 256 / p, v / 256 % p;
    assert v == 256 * (q * p + r) + v % 256;
    assert 256 * (q * p) == q * (256 * p);
    var rest := 256 * r + v % 256;
    assert v == q * (256 * p) + rest && 0 <= rest < 256 * p;
    QuotientOf(v, 256 * p, q, rest);
  }

  lemma Gap(a: nat, b: nat, d: nat)
    ensures a < b ==> a * d + d <= b * d
  {
    if a < b {
      assert (a + 1) * d <= b * d;
    }
  }

  lemma QuotientOf(v: nat, d: nat, q: nat, r: nat)
    requires v == q * d + r && r < d
    ensures v / d == q
  {
    var q', r' := v / d, v % d;
    assert v == q' * d + r' && r' < d;
    Gap(q, q', d);
    Gap(q', q, d);
  }

  /** Byte `i` of a big-endian integer, most significant first. */
  lemma {:induction false} BigEndianDigit(width: nat, v: nat, i: nat)
    requires i < width
    ensures BigEndian(width, v)[i] == v / Pow256(width - 1 - i) % 256
  {
    if i < width - 1 {
      BigEndianDigit(width - 1, v / 256, i);
      DivideTwice(v, Pow256(width - 2 - i));
    }
  }

  /** Byte `i` of a little-endian integer, least significant first. */
  lemma {:induction false} LittleEndianDigit(width: nat, v: nat, i: nat)
    requires i < width
    ensures LittleEndian(width, v)[i] == v / Pow256(i) % 256
  {
    if i > 0 {
      LittleEndianDigit(width - 1, v / 256, i - 1);
      DivideTwice(v, Pow256(i - 1));
    }
  }

  /** The shift-and-mask form in which the writers push the bytes of an integer. */
  lemma ShiftedDigits(v: nat)
    ensures BigEndian(2, v) == [v / 0x100 % 256, v % 256]
    ensures BigEndian(4, v) == [v / 0x100_0000 % 256, v / 0x1_0000 % 256, v / 0x100 % 256, v % 256]
    ensures LittleEndian(4, v) == [v % 256, v / 0x100 % 256, v / 0x1_0000 % 256, v / 0x100_0000 % 256]
  {
    var a, b, c := v / 256, v / 256 / 256, v / 256 / 256 / 256;
    assert b == v / 0x1_0000 && c == v / 0x100_0000;
    assert BigEndian(1, a) == [a % 256] && BigEndian(1, c) == [c % 256];
    assert BigEndian(2, b) == [c % 256, b % 256];
    assert BigEndian(3, a) == [c % 256, b % 256, a % 256];
    assert LittleEndian(1, c) == [c % 256];
    assert LittleEndian(2, b) == [b % 256, c % 256];
    assert LittleEndian(3, a) == [a % 256, b % 256, c % 256];
  }

  /** `a << 24 | b << 16 | c << 8 | d` of four bytes. */
  function Join4(a: nat, b: nat, c: nat, d: nat): nat {
    a * 0x100_0000 + b * 0x1_0000 + c * 0x100 + d
  }

  /** The shift-and-or form in which the readers put an integer together. */
  lemma WeighedDigits(s: bytes)
    ensures |s| == 2 ==> FromBigEndian(s) == Join4(0, 0, s[0], s[1])
    ensures |s| == 4 ==> FromBigEndian(s) == Join4(s[0], s[1], s[2], s[3])
    ensures |s| == 4 ==> FromLittleEndian(s) == Join4(s[3], s[2], s[1], s[0])
  {
    if |s| == 2 {
      assert FromBigEndian(s[..1]) == s[0];
    } else if |s| == 4 {
      assert s[..3][..2] == s[..2] && s[..2][..1] == s[..1];
      assert FromBigEndian(s[..1]) == s[0];
      assert FromBigEndian(s[..2]) == Join4(0, 0, s[0], s[1]);
      assert FromBigEndian(s[..3]) == Join4(0, s[0], s[1], s[2]);
      assert s[1..][1..] == s[2..] && s[2..][1..] == s[3..];
      assert FromLittleEndian(s[3..]) == s[3];
      assert FromLittleEndian(s[2..]) == Join4(0, 0, s[3], s[2]);
      assert FromLittleEndian(s[1..]) == Join4(0, s[3], s[2], s[1]);
    }
  }

  // ---------------------------------------------------------------------------------------------
  // Finding one byte string inside another

  /** `s` stands at offset `o` of `b`. */
  predicate At(b: bytes, o: nat, s: bytes) {
    o + |s| <= |b| && b[o..o + |s|] == s
  }

  lemma AtConcat(b: bytes, o: nat, s: bytes, t: bytes)
    ensures At(b, o, s + t) <==> At(b, o, s) && At(b, o + |s|, t)
  {
    if o + |s| + |t| <= |b| {
      assert b[o..o + |s| + |t|] == b[o..o + |s|] + b[o + |s|..o + |s| + |t|];
      if At(b, o, s + t) {
        assert s == (s + t)[..|s|] && t == (s + t)[|s|..];
      }
    }
  }

  lemma AtPrefix(b: bytes, s: bytes)
    ensures At(b, 0, s) <==> s <= b
  {
  }

  lemma Assoc(a: bytes, b: bytes, c: bytes)
    ensures a + b + c == a + (b + c)
  {
  }

  // ---------------------------------------------------------------------------------------------
  // Reading integers at an offset

  function ReadBE<E>(b: bytes, o: nat, width: nat, short: E): Parsed<nat, E> {
    if o + width > |b| then Fail(short) else Got(FromBigEndian(b[o..o + width]), o + width)
  }

  function ReadLE<E>(b: bytes, o: nat, width: nat, short: E): Parsed<nat, E> {
    if o + width > |b| then Fail(short) else Got(FromLittleEndian(b[o..o + width]), o + width)
  }

  lemma ReadBEExact<E>(b: bytes, o: nat, width: nat, short: E, v: nat)
    ensures ReadBE(b, o, width, short) == Got(v, o + width) <==>
            v < Pow256(width) && At(b, o, BigEndian(width, v))
    ensures ReadBE(b, o, width, short).Got? ==>
            ReadBE(b, o, width, short).next == o + width && ReadBE(b, o, width, short).value < Pow256(width)
  {
    if o + width <= |b| {
      BigEndianExact(b[o..o + width], v);
      BigEndianExact(b[o..o + width], FromBigEndian(b[o..o + width]));
    }
  }

  lemma ReadLEExact<E>(b: bytes, o: nat, width: nat, short: E, v: nat)
    ensures ReadLE(b, o, width, short) == Got(v, o + width) <==>
            v < Pow256(width) && At(b, o, LittleEndian(width, v))
    ensures ReadLE(b, o, width, short).Got? ==>
            ReadLE(b, o, width, short).next == o + width && ReadLE(b, o, width, short).value < Pow256(width)
  {
    if o + width <= |b| {
      LittleEndianExact(b[o..o + width], v);
      LittleEndianExact(b[o..o + width], FromLittleEndian(b[o..o + width]));
    }
  }
}
