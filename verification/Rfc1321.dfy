/**
 * RFC 1321 as a specification: the padding of section 3.1 and 3.2, the four rounds of
 * section 3.4 given by their index formulas, and the output of section 3.5.
 */
module Rfc1321 {
  import opened Bytes

  /**
   * The operations section 2 of RFC 1321 assumes on 32-bit words. The order of operations
   * inside a block does not depend on what they compute, so it is stated over any such
   * arithmetic; `WORD32` is the one the digest uses.
   */
  datatype Arithmetic<!W> = Arithmetic(
    add: (W, W) -> W, and: (W, W) -> W, or: (W, W) -> W, xor: (W, W) -> W, not: W -> W,
    shl: (W, nat) -> W, shr: (W, nat) -> W, sine: nat -> W)
  {
    function F(x: W, y: W, z: W): W { or(and(x, y), and(not(x), z)) }
    function G(x: W, y: W, z: W): W { or(and(x, z), and(y, not(z))) }
    function H(x: W, y: W, z: W): W { xor(xor(x, y), z) }
    function I(x: W, y: W, z: W): W { xor(y, or(x, not(z))) }
    function RotateLeft(x: W, n: nat): W requires n <= 32 { or(shl(x, n), shr(x, 32 - n)) }
  }

  datatype Abcd<W> = Abcd(a: W, b: W, c: W, d: W)

  /** Section 3.4: T[i] is the integer part of 4294967296 times abs(sin(i)). */
  const SINES: seq<word> :=
    [
      0xd76aa478, 0xe8c7b756, 0x242070db, 0xc1bdceee,
      0xf57c0faf, 0x4787c62a, 0xa8304613, 0xfd469501,
      0x698098d8, 0x8b44f7af, 0xffff5bb1, 0x895cd7be,
      0x6b901122, 0xfd987193, 0xa679438e, 0x49b40821,
      0xf61e2562, 0xc040b340, 0x265e5a51, 0xe9b6c7aa,
      0xd62f105d, 0x02441453, 0xd8a1e681, 0xe7d3fbc8,
      0x21e1cde6, 0xc33707d6, 0xf4d50d87, 0x455a14ed,
      0xa9e3e905, 0xfcefa3f8, 0x676f02d9, 0x8d2a4c8a,
      0xfffa3942, 0x8771f681, 0x6d9d6122, 0xfde5380c,
      0xa4beea44, 0x4bdecfa9, 0xf6bb4b60, 0xbebfbc70,
      0x289b7ec6, 0xeaa127fa, 0xd4ef3085, 0x04881d05,
      0xd9d4d039, 0xe6db99e5, 0x1fa27cf8, 0xc4ac5665,
      0xf4292244, 0x432aff97, 0xab9423a7, 0xfc93a039,
      0x655b59c3, 0x8f0ccc92, 0xffeff47d, 0x85845dd1,
      0x6fa87e4f, 0xfe2ce6e0, 0xa3014314, 0x4e0811a1,
      0xf7537e82, 0xbd3af235, 0x2ad7d2bb, 0xeb86d391
    ]

  const WORD32: Arithmetic<word> := Arithmetic(
    (x: word, y: word) => x + y, (x: word, y: word) => x & y, (x: word, y: word) => x | y,
    (x: word, y: word) => x ^ y, (x: word) => !x,
    (x: word, n: nat) => if n < 32 then x << n else 0, (x: word, n: nat) => if n < 32 then x >> n else 0,
    (i: nat) => if 1 <= i <= |SINES| then SINES[i - 1] else 0)

  /** Section 3.4: the order in which each round takes the words of the block. */
  const WORD_ORDER: seq<seq<nat>> := [
    [0, 1, 2, 3, 4, 5, 6, 7, 8, 9, 10, 11, 12, 13, 14, 15],
    [1, 6, 11, 0, 5, 10, 15, 4, 9, 14, 3, 8, 13, 2, 7, 12],
    [5, 8, 11, 14, 1, 4, 7, 10, 13, 0, 3, 6, 9, 12, 15, 2],
    [0, 7, 14, 5, 12, 3, 10, 1, 8, 15, 6, 13, 4, 11, 2, 9]]

  /** The word operation `i` of round `r` takes. */
  function WordIndex(r: nat, i: nat): (k: nat)
    ensures k < 16
  {
    match r
    case 0 => WORD_ORDER[0][i % 16]
    case 1 => WORD_ORDER[1][i % 16]
    case 2 => WORD_ORDER[2][i % 16]
    case _ => WORD_ORDER[3][i % 16]
  }

  /** The four orders are the strides 1, 5, 3 and 7 modulo 16, so every round takes every word once. */
  lemma WordOrderIsStride(i: nat)
    requires i < 16
    ensures WordIndex(0, i) == i
    ensures WordIndex(1, i) == (5 * i + 1) % 16
    ensures WordIndex(2, i) == (3 * i + 5) % 16
    ensures WordIndex(3, i) == 7 * i % 16
  {
    match i
    case 0 | 1 | 2 | 3 =>
    case 4 | 5 | 6 | 7 =>
    case 8 | 9 | 10 | 11 =>
    case 12 | 13 | 14 | 15 =>
  }

  /** Section 3.4: how far operation `i` of round `r` rotates. */
  function Shift(r: nat, i: nat): (s: nat)
    ensures s <= 32
  {
    match r
    case 0 => [7, 12, 17, 22][i % 4]
    case 1 => [5, 9, 14, 20][i % 4]
    case 2 => [4, 11, 16, 23][i % 4]
    case _ => [6, 10, 15, 21][i % 4]
  }

  function Auxiliary<W>(ar: Arithmetic<W>, r: nat, x: W, y: W, z: W): W {
    match r
    case 0 => ar.F(x, y, z)
    case 1 => ar.G(x, y, z)
    case 2 => ar.H(x, y, z)
    case _ => ar.I(x, y, z)
  }

  /** One operation [abcd k s i]; the registers then take each other's place. */
  function Operation<W>(ar: Arithmetic<W>, r: nat, i: nat, x: seq<W>, v: Abcd<W>): Abcd<W>
    requires |x| == 16
  {
    var t := ar.add(ar.add(ar.add(v.a, Auxiliary(ar, r, v.b, v.c, v.d)), x[WordIndex(r, i)]), ar.sine(16 * r + i + 1));
    Abcd(v.d, ar.add(ar.RotateLeft(t, Shift(r, i)), v.b), v.b, v.c)
  }

  /** The first `n` operations of round `r`. */
  function Round<W>(ar: Arithmetic<W>, r: nat, n: nat, x: seq<W>, v: Abcd<W>): Abcd<W>
    requires |x| == 16
    decreases x, n
  {
    if n == 0 then v else Operation(ar, r, n - 1, x, Round(ar, r, n - 1, x, v))
  }

  /** The four rounds of sixteen operations. */
  function Rounds<W>(ar: Arithmetic<W>, x: seq<W>, v: Abcd<W>): Abcd<W>
    requires |x| == 16
  {
    Round(ar, 3, |x|, x, Round(ar, 2, |x|, x, Round(ar, 1, |x|, x, Round(ar, 0, |x|, x, v))))
  }

  /** Section 2: four bytes as a word, low-order byte first. */
  function DecodeWord(b: seq<byte>): word
    requires |b| == 4
  {
    (b[0] as word) + ((b[1] as word) << 8) + ((b[2] as word) << 16) + ((b[3] as word) << 24)
  }

  /** The block as sixteen words. */
  function Decode(block: seq<byte>): (x: seq<word>)
    requires |block| == 64
    ensures |x| == 16
  {
    seq(16, k requires 0 <= k < 16 => DecodeWord(block[4 * k..4 * k + 4]))
  }

  /** Section 3.4: one block taken into the registers. */
  function Compress(ar: Arithmetic<word>, v: Abcd<word>, block: seq<byte>): Abcd<word>
    requires |block| == 64
  {
    var x := Decode(block);
    var w := Rounds(ar, x, v);
    Abcd(ar.add(v.a, w.a), ar.add(v.b, w.b), ar.add(v.c, w.c), ar.add(v.d, w.d))
  }

  type Compression = (Abcd<word>, seq<byte>) -> Abcd<word>

  /** `f` takes a 64-byte block into the registers as section 3.4 says. */
  ghost predicate Compresses(f: Compression, ar: Arithmetic<word>) {
    forall v, block {:trigger Compress(ar, v, block)} :: |block| == 64 ==> f(v, block) == Compress(ar, v, block)
  }

  /** The compression on 32-bit words. */
  function Compress32(v: Abcd<word>, block: seq<byte>): Abcd<word> {
    if |block| == 64 then Compress(WORD32, v, block) else v
  }

  /** Section 3.3: the initial registers. */
  const INITIAL: Abcd<word> := Abcd(0x67452301, 0xefcdab89, 0x98badcfe, 0x10325476)

  /** Section 3.4: the registers after the first `k` 64-byte blocks of `m`. */
  function Absorb(f: Compression, m: seq<byte>, k: nat): Abcd<word>
    requires 64 * k <= |m|
    decreases m, k
  {
    if k == 0 then INITIAL else f(Absorb(f, m, k - 1), m[64 * k - 64..64 * k])
  }

  /** Blocks already complete are not affected by what is appended. */
  lemma {:induction false} AbsorbPrefix(f: Compression, m: seq<byte>, d: seq<byte>, k: nat)
    requires 64 * k <= |m|
    ensures Absorb(f, m + d, k) == Absorb(f, m, k)
    decreases k
  {
    if k > 0 {
      AbsorbPrefix(f, m, d, k - 1);
      assert (m + d)[64 * k - 64..64 * k] == m[64 * k - 64..64 * k];
    }
  }

  function Zeros(n: nat): seq<byte> { seq(n, _ => 0) }

  /** How many zero bytes follow the byte 0x80 in the padding of an `n`-byte message. */
  function ZeroCount(n: nat): (k: nat) { (55 - n) % 64 }

  /**
   * Section 3.1: the padded length is 448 bits modulo 512, at least one bit is added, and no
   * shorter padding of whole bytes would do.
   */
  lemma PaddingIsLeast(n: nat, k: nat)
    ensures (n + 1 + ZeroCount(n)) % 64 == 56
    ensures (n + 1 + k) % 64 == 56 ==> ZeroCount(n) <= k
  {
  }

  lemma PaddedLength(n: nat)
    ensures (n + 1 + ZeroCount(n) + 8) % 64 == 0
  {
    PaddingIsLeast(n, 0);
  }

  /** The four bytes of a number below 2^32, low-order byte first. */
  function LengthBytes(n: nat): (s: seq<byte>)
    ensures |s| == 4
  {
    [(n % 256) as byte, (n / 0x100 % 256) as byte, (n / 0x1_0000 % 256) as byte, (n / 0x100_0000 % 256) as byte]
  }

  /** Section 3.2: the length in bits, low-order word first. */
  function LengthField(bits: nat): (s: seq<byte>)
    ensures |s| == 8
  {
    LengthBytes(bits % 0x1_0000_0000) + LengthBytes(bits / 0x1_0000_0000)
  }

  /** Sections 3.1 and 3.2: the message, the padding, and its length in bits modulo 2^64, low-order word first. */
  function Padded(m: seq<byte>): (p: seq<byte>)
    ensures |p| % 64 == 0
  {
    PaddedLength(|m|);
    m + [0x80] + Zeros(ZeroCount(|m|)) + LengthField(8 * |m| % 0x1_0000_0000_0000_0000)
  }

  function WordOutput(w: word): seq<byte> { [ByteOf(w, 0), ByteOf(w, 1), ByteOf(w, 2), ByteOf(w, 3)] }

  /** Section 3.5: the digest, register a first, each low-order byte first. */
  function Output(v: Abcd<word>): (s: seq<byte>)
    ensures |s| == 16
  {
    WordOutput(v.a) + WordOutput(v.b) + WordOutput(v.c) + WordOutput(v.d)
  }

  /** The message digest, for the compression `f` of section 3.4. */
  function Digest(f: Compression, m: seq<byte>): seq<byte> {
    var p := Padded(m);
    Output(Absorb(f, p, |p| / 64))
  }
}
