/** The streaming MD5 of diskcomp/md5.c. */
module Md5 {
  import opened Bytes
  import opened Rfc1321

  /** The SET macro: `mixed` is F, G, H or I of the other registers, `i` the index of T. */
  function Set<W>(ar: Arithmetic<W>, mixed: W, a: W, b: W, xk: W, s: nat, i: nat): W
    requires s <= 32
  {
    var t := ar.add(ar.add(ar.add(a, mixed), xk), ar.sine(i));
    ar.add(ar.RotateLeft(t, s), b)
  }

  method Round1<W>(ar: Arithmetic<W>, x: seq<W>, v: Abcd<W>) returns (w: Abcd<W>)
    requires |x| == 16
    ensures w == Round(ar, 0, 16, x, v)
  {
    var a, b, c, d := v.a, v.b, v.c, v.d;
    a := Set(ar, ar.F(b, c, d), a, b, x[0], 7, 1);
    assert Abcd(d, a, b, c) == Round(ar, 0, 1, x, v);
    d := Set(ar, ar.F(a, b, c), d, a, x[1], 12, 2);
    assert Abcd(c, d, a, b) == Round(ar, 0, 2, x, v);
    c := Set(ar, ar.F(d, a, b), c, d, x[2], 17, 3);
    assert Abcd(b, c, d, a) == Round(ar, 0, 3, x, v);
    b := Set(ar, ar.F(c, d, a), b, c, x[3], 22, 4);
    assert Abcd(a, b, c, d) == Round(ar, 0, 4, x, v);
    a := Set(ar, ar.F(b, c, d), a, b, x[4], 7, 5);
    assert Abcd(d, a, b, c) == Round(ar, 0, 5, x, v);
    d := Set(ar, ar.F(a, b, c), d, a, x[5], 12, 6);
    assert Abcd(c, d, a, b) == Round(ar, 0, 6, x, v);
    c := Set(ar, ar.F(d, a, b), c, d, x[6], 17, 7);
    assert Abcd(b, c, d, a) == Round(ar, 0, 7, x, v);
    b := Set(ar, ar.F(c, d, a), b, c, x[7], 22, 8);
    assert Abcd(a, b, c, d) == Round(ar, 0, 8, x, v);
    a := Set(ar, ar.F(b, c, d), a, b, x[8], 7, 9);
    assert Abcd(d, a, b, c) == Round(ar, 0, 9, x, v);
    d := Set(ar, ar.F(a, b, c), d, a, x[9], 12, 10);
    assert Abcd(c, d, a, b) == Round(ar, 0, 10, x, v);
    c := Set(ar, ar.F(d, a, b), c, d, x[10], 17, 11);
    assert Abcd(b, c, d, a) == Round(ar, 0, 11, x, v);
    b := Set(ar, ar.F(c, d, a), b, c, x[11], 22, 12);
    assert Abcd(a, b, c, d) == Round(ar, 0, 12, x, v);
    a := Set(ar, ar.F(b, c, d), a, b, x[12], 7, 13);
    assert Abcd(d, a, b, c) == Round(ar, 0, 13, x, v);
    d := Set(ar, ar.F(a, b, c), d, a, x[13], 12, 14);
    assert Abcd(c, d, a, b) == Round(ar, 0, 14, x, v);
    c := Set(ar, ar.F(d, a, b), c, d, x[14], 17, 15);
    assert Abcd(b, c, d, a) == Round(ar, 0, 15, x, v);
    b := Set(ar, ar.F(c, d, a), b, c, x[15], 22, 16);
    assert Abcd(a, b, c, d) == Round(ar, 0, 16, x, v);
    w := Abcd(a, b, c, d);
  }

  method Round2<W>(ar: Arithmetic<W>, x: seq<W>, v: Abcd<W>) returns (w: Abcd<W>)
    requires |x| == 16
    ensures w == Round(ar, 1, 16, x, v)
  {
    var a, b, c, d := v.a, v.b, v.c, v.d;
    a := Set(ar, ar.G(b, c, d), a, b, x[1], 5, 17);
    assert Abcd(d, a, b, c) == Round(ar, 1, 1, x, v);
    d := Set(ar, ar.G(a, b, c), d, a, x[6], 9, 18);
    assert Abcd(c, d, a, b) == Round(ar, 1, 2, x, v);
    c := Set(ar, ar.G(d, a, b), c, d, x[11], 14, 19);
    assert Abcd(b, c, d, a) == Round(ar, 1, 3, x, v);
    b := Set(ar, ar.G(c, d, a), b, c, x[0], 20, 20);
    assert Abcd(a, b, c, d) == Round(ar, 1, 4, x, v);
    a := Set(ar, ar.G(b, c, d), a, b, x[5], 5, 21);
    assert Abcd(d, a, b, c) == Round(ar, 1, 5, x, v);
    d := Set(ar, ar.G(a, b, c), d, a, x[10], 9, 22);
    assert Abcd(c, d, a, b) == Round(ar, 1, 6, x, v);
    c := Set(ar, ar.G(d, a, b), c, d, x[15], 14, 23);
    assert Abcd(b, c, d, a) == Round(ar, 1, 7, x, v);
    b := Set(ar, ar.G(c, d, a), b, c, x[4], 20, 24);
    assert Abcd(a, b, c, d) == Round(ar, 1, 8, x, v);
    a := Set(ar, ar.G(b, c, d), a, b, x[9], 5, 25);
    assert Abcd(d, a, b, c) == Round(ar, 1, 9, x, v);
    d := Set(ar, ar.G(a, b, c), d, a, x[14], 9, 26);
    assert Abcd(c, d, a, b) == Round(ar, 1, 10, x, v);
    c := Set(ar, ar.G(d, a, b), c, d, x[3], 14, 27);
    assert Abcd(b, c, d, a) == Round(ar, 1, 11, x, v);
    b := Set(ar, ar.G(c, d, a), b, c, x[8], 20, 28);
    assert Abcd(a, b, c, d) == Round(ar, 1, 12, x, v);
    a := Set(ar, ar.G(b, c, d), a, b, x[13], 5, 29);
    assert Abcd(d, a, b, c) == Round(ar, 1, 13, x, v);
    d := Set(ar, ar.G(a, b, c), d, a, x[2], 9, 30);
    assert Abcd(c, d, a, b) == Round(ar, 1, 14, x, v);
    c := Set(ar, ar.G(d, a, b), c, d, x[7], 14, 31);
    assert Abcd(b, c, d, a) == Round(ar, 1, 15, x, v);
    b := Set(ar, ar.G(c, d, a), b, c, x[12], 20, 32);
    assert Abcd(a, b, c, d) == Round(ar, 1, 16, x, v);
    w := Abcd(a, b, c, d);
  }

  method Round3<W>(ar: Arithmetic<W>, x: seq<W>, v: Abcd<W>) returns (w: Abcd<W>)
    requires |x| == 16
    ensures w == Round(ar, 2, 16, x, v)
  {
    var a, b, c, d := v.a, v.b, v.c, v.d;
    a := Set(ar, ar.H(b, c, d), a, b, x[5], 4, 33);
    assert Abcd(d, a, b, c) == Round(ar, 2, 1, x, v);
    d := Set(ar, ar.H(a, b, c), d, a, x[8], 11, 34);
    assert Abcd(c, d, a, b) == Round(ar, 2, 2, x, v);
    c := Set(ar, ar.H(d, a, b), c, d, x[11], 16, 35);
    assert Abcd(b, c, d, a) == Round(ar, 2, 3, x, v);
    b := Set(ar, ar.H(c, d, a), b, c, x[14], 23, 36);
    assert Abcd(a, b, c, d) == Round(ar, 2, 4, x, v);
    a := Set(ar, ar.H(b, c, d), a, b, x[1], 4, 37);
    assert Abcd(d, a, b, c) == Round(ar, 2, 5, x, v);
    d := Set(ar, ar.H(a, b, c), d, a, x[4], 11, 38);
    assert Abcd(c, d, a, b) == Round(ar, 2, 6, x, v);
    c := Set(ar, ar.H(d, a, b), c, d, x[7], 16, 39);
    assert Abcd(b, c, d, a) == Round(ar, 2, 7, x, v);
    b := Set(ar, ar.H(c, d, a), b, c, x[10], 23, 40);
    assert Abcd(a, b, c, d) == Round(ar, 2, 8, x, v);
    a := Set(ar, ar.H(b, c, d), a, b, x[13], 4, 41);
    assert Abcd(d, a, b, c) == Round(ar, 2, 9, x, v);
    d := Set(ar, ar.H(a, b, c), d, a, x[0], 11, 42);
    assert Abcd(c, d, a, b) == Round(ar, 2, 10, x, v);
    c := Set(ar, ar.H(d, a, b), c, d, x[3], 16, 43);
    assert Abcd(b, c, d, a) == Round(ar, 2, 11, x, v);
    b := Set(ar, ar.H(c, d, a), b, c, x[6], 23, 44);
    assert Abcd(a, b, c, d) == Round(ar, 2, 12, x, v);
    a := Set(ar, ar.H(b, c, d), a, b, x[9], 4, 45);
    assert Abcd(d, a, b, c) == Round(ar, 2, 13, x, v);
    d := Set(ar, ar.H(a, b, c), d, a, x[12], 11, 46);
    assert Abcd(c, d, a, b) == Round(ar, 2, 14, x, v);
    c := Set(ar, ar.H(d, a, b), c, d, x[15], 16, 47);
    assert Abcd(b, c, d, a) == Round(ar, 2, 15, x, v);
    b := Set(ar, ar.H(c, d, a), b, c, x[2], 23, 48);
    assert Abcd(a, b, c, d) == Round(ar, 2, 16, x, v);
    w := Abcd(a, b, c, d);
  }

  method Round4<W>(ar: Arithmetic<W>, x: seq<W>, v: Abcd<W>) returns (w: Abcd<W>)
    requires |x| == 16
    ensures w == Round(ar, 3, 16, x, v)
  {
    var a, b, c, d := v.a, v.b, v.c, v.d;
    a := Set(ar, ar.I(b, c, d), a, b, x[0], 6, 49);
    assert Abcd(d, a, b, c) == Round(ar, 3, 1, x, v);
    d := Set(ar, ar.I(a, b, c), d, a, x[7], 10, 50);
    assert Abcd(c, d, a, b) == Round(ar, 3, 2, x, v);
    c := Set(ar, ar.I(d, a, b), c, d, x[14], 15, 51);
    assert Abcd(b, c, d, a) == Round(ar, 3, 3, x, v);
    b := Set(ar, ar.I(c, d, a), b, c, x[5], 21, 52);
    assert Abcd(a, b, c, d) == Round(ar, 3, 4, x, v);
    a := Set(ar, ar.I(b, c, d), a, b, x[12], 6, 53);
    assert Abcd(d, a, b, c) == Round(ar, 3, 5, x, v);
    d := Set(ar, ar.I(a, b, c), d, a, x[3], 10, 54);
    assert Abcd(c, d, a, b) == Round(ar, 3, 6, x, v);
    c := Set(ar, ar.I(d, a, b), c, d, x[10], 15, 55);
    assert Abcd(b, c, d, a) == Round(ar, 3, 7, x, v);
    b := Set(ar, ar.I(c, d, a), b, c, x[1], 21, 56);
    assert Abcd(a, b, c, d) == Round(ar, 3, 8, x, v);
    a := Set(ar, ar.I(b, c, d), a, b, x[8], 6, 57);
    assert Abcd(d, a, b, c) == Round(ar, 3, 9, x, v);
    d := Set(ar, ar.I(a, b, c), d, a, x[15], 10, 58);
    assert Abcd(c, d, a, b) == Round(ar, 3, 10, x, v);
    c := Set(ar, ar.I(d, a, b), c, d, x[6], 15, 59);
    assert Abcd(b, c, d, a) == Round(ar, 3, 11, x, v);
    b := Set(ar, ar.I(c, d, a), b, c, x[13], 21, 60);
    assert Abcd(a, b, c, d) == Round(ar, 3, 12, x, v);
    a := Set(ar, ar.I(b, c, d), a, b, x[4], 6, 61);
    assert Abcd(d, a, b, c) == Round(ar, 3, 13, x, v);
    d := Set(ar, ar.I(a, b, c), d, a, x[11], 10, 62);
    assert Abcd(c, d, a, b) == Round(ar, 3, 14, x, v);
    c := Set(ar, ar.I(d, a, b), c, d, x[2], 15, 63);
    assert Abcd(b, c, d, a) == Round(ar, 3, 15, x, v);
    b := Set(ar, ar.I(c, d, a), b, c, x[9], 21, 64);
    assert Abcd(a, b, c, d) == Round(ar, 3, 16, x, v);
    w := Abcd(a, b, c, d);
  }

  method AllRounds<W>(ar: Arithmetic<W>, x: seq<W>, v: Abcd<W>) returns (w: Abcd<W>)
    requires |x| == 16
    ensures w == Rounds(ar, x, v)
  {
    w := Round1(ar, x, v);
    w := Round2(ar, x, w);
    w := Round3(ar, x, w);
    w := Round4(ar, x, w);
  }

  /** md5_process. */
  method ProcessBlock(ar: Arithmetic<word>, v: Abcd<word>, block: seq<byte>) returns (r: Abcd<word>)
    requires |block| == 64
    ensures r == Compress(ar, v, block)
  {
    var w := AllRounds(ar, Decode(block), v);
    r := Abcd(ar.add(v.a, w.a), ar.add(v.b, w.b), ar.add(v.c, w.c), ar.add(v.d, w.d));
  }

  /** The number of bits counted so far, as the two 32-bit halves of `count`. */
  function BitCount(n: nat): nat { 8 * n % 0x1_0000_0000_0000_0000 }

  lemma Modulo64(x: int, y: int, j: int)
    requires x == y + 64 * j
    ensures x % 64 == y % 64
  {
  }

  /** The bits of the count below 2^32 determine the offset into the current block. */
  lemma CountIsOffset(n: nat, low: nat, high: nat)
    requires low < 0x1_0000_0000 && low + 0x1_0000_0000 * high == BitCount(n)
    ensures low / 8 % 64 == n % 64
    ensures (55 - low / 8) % 0x1_0000_0000 % 64 == ZeroCount(n)
  {
    var k := high + 0x1_0000_0000 * (8 * n / 0x1_0000_0000_0000_0000);
    assert 8 * n == low + 0x1_0000_0000 * k;
    assert low / 8 == n - 0x2000_0000 * k;
    Modulo64(low / 8, n, -0x80_0000 * k);
    var p := (55 - low / 8) % 0x1_0000_0000;
    var t := (55 - low / 8) / 0x1_0000_0000;
    assert p == 55 - low / 8 - 0x1_0000_0000 * t;
    Modulo64(p, 55 - n, 0x80_0000 * k - 0x400_0000 * t);
  }

  /** What md5_finish appends is the padding of RFC 1321. */
  lemma PaddedIs(m: seq<byte>, pad: seq<byte>, n: nat, low: nat, high: nat)
    requires low < 0x1_0000_0000 && low + 0x1_0000_0000 * high == BitCount(|m|)
    requires pad == [0x80] + Zeros(63) && n == ZeroCount(|m|) + 1
    ensures m + pad[..n] + (LengthBytes(low) + LengthBytes(high)) == Padded(m)
  {
    assert BitCount(|m|) % 0x1_0000_0000 == low && BitCount(|m|) / 0x1_0000_0000 == high;
    assert pad[..n] == [0x80] + Zeros(n - 1);
  }

  /** The high word wraps around. */
  lemma HighWord(sum: nat, carry: nat) returns (high2: nat, over: nat)
    requires carry < 2
    ensures high2 == if carry == 1 then (sum % 0x1_0000_0000 + 1) % 0x1_0000_0000 else sum % 0x1_0000_0000
    ensures sum + carry == high2 + 0x1_0000_0000 * over
  {
    var high1 := sum % 0x1_0000_0000;
    high2 := if carry == 1 then (high1 + 1) % 0x1_0000_0000 else high1;
    over := sum / 0x1_0000_0000 + if high1 + carry == 0x1_0000_0000 then 1 else 0;
  }

  lemma BitCountIs(n: nat, c: nat)
    requires c == BitCount(n)
    ensures 8 * n == c + 0x1_0000_0000_0000_0000 * (8 * n / 0x1_0000_0000_0000_0000)
  {
  }

  lemma BitCountUnique(n: nat, c: nat, q: int)
    requires c < 0x1_0000_0000_0000_0000 && 8 * n == c + 0x1_0000_0000_0000_0000 * q
    ensures BitCount(n) == c
  {
  }

  /** Adding to the two halves with the carry of lines 349 to 352 adds to the 64-bit count. */
  lemma CountCarries(n: nat, k: nat, low: nat, high: nat)
    requires k < 0x8000_0000 && low < 0x1_0000_0000 && high < 0x1_0000_0000
    requires low + 0x1_0000_0000 * high == BitCount(n)
    ensures var bits := 8 * k % 0x1_0000_0000;
            var low' := (low + bits) % 0x1_0000_0000;
            var high1 := (high + k / 0x2000_0000) % 0x1_0000_0000;
            var high2 := if low' < bits then (high1 + 1) % 0x1_0000_0000 else high1;
            low' + 0x1_0000_0000 * high2 == BitCount(n + k)
  {
    var bits := 8 * k % 0x1_0000_0000;
    var low' := (low + bits) % 0x1_0000_0000;
    var carry := if low' < bits then 1 else 0;
    assert 8 * k == bits + 0x1_0000_0000 * (k / 0x2000_0000);
    assert low + bits == low' + 0x1_0000_0000 * carry;
    var high2, over := HighWord(high + k / 0x2000_0000, carry);
    BitCountIs(n, low + 0x1_0000_0000 * high);
    BitCountUnique(n + k, low' + 0x1_0000_0000 * high2, 8 * n / 0x1_0000_0000_0000_0000 + over);
  }

  lemma BlocksAre(n: nat, blocks: nat, used: nat)
    requires n == 64 * blocks + used && used < 64
    ensures n % 64 == used && n / 64 == blocks
  {
  }

  /** What is left of a message from `s` on, in two parts. */
  lemma SliceParts(m: seq<byte>, r: seq<byte>, s: nat, k: nat)
    requires s <= |m| && r == m[s..] && k <= |r|
    ensures r[..k] == m[s..s + k] && r[k..] == m[s + k..]
  {
  }

  /** What was in the buffer and what has been copied behind it are the message from `s` on. */
  lemma Filled(was: seq<byte>, now: seq<byte>, m: seq<byte>, data: seq<byte>, s: nat, offset: nat, k: nat)
    requires |was| == |now| && offset + k <= |now| && k <= |data| && s + offset + k <= |m|
    requires was[..offset] == m[s..s + offset] && data == m[s + offset..]
    requires forall i :: 0 <= i < offset ==> now[i] == was[i]
    requires forall i :: offset <= i < offset + k ==> now[i] == data[i - offset]
    ensures now[..offset + k] == m[s..s + offset + k]
  {
    assert was[..offset] == now[..offset];
    assert now[..offset + k] == now[..offset] + data[..k];
    SliceParts(m, data, s + offset, k);
  }

  lemma Shifted(data: seq<byte>, p: nat, k: nat)
    requires p + k <= |data|
    ensures data[p..][..k] == data[p..p + k] && data[p..][k..] == data[p + k..]
  {
  }

  class Md5State {
    var count0: nat
    var count1: nat
    var abcd: Abcd<word>

    const buf: array<byte>
    const ar: Arithmetic<word>
    const f: Compression
    ghost var message: seq<byte>
    ghost var blocks: nat
    ghost var used: nat

    /** The two halves hold the bit count of an `n`-byte message. */
    ghost predicate Counts(n: nat)
      reads this`count0, this`count1
    {
      && count0 < 0x1_0000_0000 && count1 < 0x1_0000_0000
      && count0 + 0x1_0000_0000 * count1 == BitCount(n)
    }

    /** abcd has taken in every whole block of the message, and buf holds the rest. */
    ghost predicate Buffered()
      reads this`abcd, this`message, this`blocks, this`used, buf
    {
      && buf.Length == 64 && Compresses(f, ar)
      && used < 64 && |message| == 64 * blocks + used
      && abcd == Absorb(f, message, blocks)
      && buf[..used] == message[64 * blocks..]
    }

    /** Counter, registers and buffer are those of the message. */
    ghost predicate Sound()
      reads this, buf
    {
      Counts(|message|) && Buffered()
    }

    constructor (ar: Arithmetic<word>, f: Compression)
      requires Compresses(f, ar)
      ensures Sound() && fresh(buf) && message == [] && this.f == f
    {
      count0, count1 := 0, 0;
      abcd := INITIAL;
      buf := new byte[64];
      message, blocks, used := [], 0, 0;
      this.ar, this.f := ar, f;
    }

    method Process(block: seq<byte>)
      requires |block| == 64 && Compresses(f, ar)
      modifies this`abcd
      ensures abcd == f(old(abcd), block)
    {
      abcd := ProcessBlock(ar, abcd, block);
    }

    /** Lines 341 to 352: the offset of the new data and the new length. */
    method Count(nbytes: nat, ghost n: nat) returns (offset: nat)
      requires Counts(n) && nbytes < 0x8000_0000
      modifies this`count0, this`count1
      ensures Counts(n + nbytes) && offset == n % 64
    {
      CountIsOffset(n, count0, count1);
      CountCarries(n, nbytes, count0, count1);
      offset := count0 / 8 % 64;
      var nbits := 8 * nbytes % 0x1_0000_0000;
      count1 := (count1 + nbytes / 0x2000_0000) % 0x1_0000_0000;
      count0 := (count0 + nbits) % 0x1_0000_0000;
      if count0 < nbits {
        count1 := (count1 + 1) % 0x1_0000_0000;
      }
    }

    /** abcd has taken in `blocks` blocks of the message; `data` is what comes `offset` bytes into the next one. */
    ghost predicate Pending(data: seq<byte>, offset: nat)
      reads this`abcd, this`message, this`blocks, buf
    {
      && buf.Length == 64 && Compresses(f, ar)
      && |message| == 64 * blocks + offset + |data|
      && abcd == Absorb(f, message, blocks)
      && data == message[64 * blocks + offset..]
    }

    /** The block is full. */
    method TakeFull(data: seq<byte>, offset: nat, copy: nat)
      requires Pending(data, offset) && offset + copy == 64 && copy <= |data|
      requires buf[..offset + copy] == message[64 * blocks..64 * blocks + offset + copy]
      modifies this`abcd, this`blocks
      ensures Pending(data[copy..], 0)
    {
      ghost var start := 64 * blocks;
      assert buf[..] == buf[..offset + copy] == message[start..start + 64];
      SliceParts(message, data, start + offset, copy);
      Process(buf[..]);
      blocks := blocks + 1;
    }

    method Fill(data: seq<byte>, offset: nat, copy: nat)
      requires buf.Length == 64 && copy <= |data| && offset + copy <= 64
      requires |message| == 64 * blocks + offset + |data| && data == message[64 * blocks + offset..]
      requires buf[..offset] == message[64 * blocks..64 * blocks + offset]
      modifies buf
      ensures buf[..offset + copy] == message[64 * blocks..64 * blocks + offset + copy]
    {
      ghost var before := buf[..];
      forall i | 0 <= i < copy { buf[offset + i] := data[i]; }
      Filled(before, buf[..], message, data, 64 * blocks, offset, copy);
    }

    /** Lines 355 to 364: fill up the partial block; `done` is the early return. */
    method TakePartial(data: seq<byte>, offset: nat) returns (p: nat, done: bool)
      requires Pending(data, offset) && 0 < offset < 64
      requires buf[..offset] == message[64 * blocks..64 * blocks + offset]
      modifies this`abcd, this`blocks, this`used, buf
      ensures p <= |data|
      ensures if done then Buffered() else Pending(data[p..], 0)
    {
      var copy := if offset + |data| > 64 then 64 - offset else |data|;
      Fill(data, offset, copy);
      if offset + copy < 64 {
        used := offset + copy;
        return copy, true;
      }
      TakeFull(data, offset, copy);
      return copy, false;
    }

    method TakeOne(data: seq<byte>, p: nat)
      requires p + 64 <= |data| && Pending(data[p..], 0)
      modifies this`abcd, this`blocks
      ensures Pending(data[p + 64..], 0)
    {
      SliceParts(message, data[p..], 64 * blocks, 64);
      Shifted(data, p, 64);
      Process(data[p..p + 64]);
      blocks := blocks + 1;
    }

    method Keep(data: seq<byte>, p: nat, left: nat)
      requires p + left == |data| && left < 64 && Pending(data[p..], 0)
      modifies this`used, buf
      ensures Buffered()
    {
      used := left;
      if left != 0 {
        forall i | 0 <= i < left { buf[i] := data[p + i]; }
      }
      assert buf[..used] == data[p..];
    }

    /** Lines 366 to 372: whole blocks, then the rest. */
    method TakeBlocks(data: seq<byte>, start: nat)
      requires start <= |data| && Pending(data[start..], 0)
      modifies this`abcd, this`blocks, this`used, buf
      ensures Buffered()
    {
      var p, left := start, |data| - start;
      while left >= 64
        invariant 0 <= left && p + left == |data|
        invariant Pending(data[p..], 0)
      {
        TakeOne(data, p);
        p, left := p + 64, left - 64;
      }
      Keep(data, p, left);
    }

    /** Lines 355 to 372: the bytes go through the partial block, whole blocks, and the partial block again. */
    method Take(data: seq<byte>, offset: nat)
      requires Buffered() && offset == used
      modifies this`abcd, this`message, this`blocks, this`used, buf
      ensures Buffered() && message == old(message) + data
    {
      AbsorbPrefix(f, message, data, blocks);
      assert message[64 * blocks..] == (message + data)[64 * blocks..64 * blocks + used];
      message := message + data;
      var p := 0;
      if offset != 0 {
        var done;
        p, done := TakePartial(data, offset);
        if done { return; }
      } else {
        assert data[0..] == data;
      }
      TakeBlocks(data, p);
    }

    method AppendSome(data: seq<byte>)
      requires Sound() && |data| + 63 < 0x8000_0000
      modifies this, buf
      ensures Sound() && message == old(message) + data
    {
      ghost var n := |message|;
      var offset := Count(|data|, n);
      BlocksAre(n, blocks, used);
      Take(data, offset);
      assert |message| == n + |data|;
    }

    /** `offset + nbytes` is computed in a signed 32-bit int. */
    method Append(data: seq<byte>, nbytes: int)
      requires Sound() && nbytes <= |data| && nbytes + 63 < 0x8000_0000
      modifies this, buf
      ensures Sound()
      ensures message == old(message) + data[..if nbytes <= 0 then 0 else nbytes]
    {
      if nbytes <= 0 { return; }
      AppendSome(data[..nbytes]);
    }

    /** The argument of line 391 */
    method PaddingLength(ghost n: nat) returns (padding: nat)
      requires Counts(n)
      ensures padding == ZeroCount(n) + 1
    {
      CountIsOffset(n, count0, count1);
      padding := (55 - count0 / 8) % 0x1_0000_0000 % 64 + 1;
    }

    /** The padding, then the eight bytes of `count` saved before it. */
    method Pad()
      requires Sound()
      modifies this, buf
      ensures Buffered() && message == Padded(old(message))
    {
      ghost var before := message;
      var data := LengthBytes(count0) + LengthBytes(count1);
      var pad := [0x80] + Zeros(63);
      var padding := PaddingLength(|before|);
      PaddedIs(before, pad, padding, count0, count1);
      ghost var middle := before + pad[..padding];
      Append(pad, padding);
      assert message == middle;
      assert data[..8] == data;
      Append(data, 8);
    }

    static method Write(output: seq<byte>, digest: array<byte>)
      requires |output| == digest.Length
      modifies digest
      ensures digest[..] == output
    {
      forall i | 0 <= i < |output| { digest[i] := output[i]; }
    }

    method Finish(digest: array<byte>)
      requires Sound() && digest.Length == 16 && digest != buf
      modifies this, buf, digest
      ensures digest[..] == Digest(f, old(message))
    {
      ghost var p := Padded(message);
      Pad();
      BlocksAre(|p|, blocks, used);
      assert abcd == Absorb(f, p, |p| / 64);
      Write(Output(abcd), digest);
    }

    /** md5_finish into a digest of the caller's */
    method DigestNow() returns (digest: seq<byte>)
      requires Sound()
      modifies this, buf
      ensures digest == Digest(f, old(message))
    {
      var out := new byte[16];
      Finish(out);
      digest := out[..];
    }
  }

  function Concat(chunks: seq<seq<byte>>): seq<byte> {
    if |chunks| == 0 then [] else Concat(chunks[..|chunks| - 1]) + chunks[|chunks| - 1]
  }

  lemma ConcatNext(chunks: seq<seq<byte>>, k: nat)
    requires k < |chunks|
    ensures Concat(chunks[..k + 1]) == Concat(chunks[..k]) + chunks[k]
  {
    assert chunks[..k + 1][..k] == chunks[..k];
  }

  /** However a message is cut into calls of md5_append, md5_finish gives its RFC 1321 digest. */
  method DigestOfChunks(ar: Arithmetic<word>, f: Compression, chunks: seq<seq<byte>>) returns (digest: seq<byte>)
    requires Compresses(f, ar)
    requires forall c :: c in chunks ==> |c| + 63 < 0x8000_0000
    ensures digest == Digest(f, Concat(chunks))
  {
    var state := new Md5State(ar, f);
    for i := 0 to |chunks|
      invariant state.Sound() && state.f == f && fresh(state) && fresh(state.buf)
      invariant state.message == Concat(chunks[..i])
    {
      state.Append(chunks[i], |chunks[i]|);
      ConcatNext(chunks, i);
    }
    assert chunks[..|chunks|] == chunks;
    digest := state.DigestNow();
  }

  /** The same on 32-bit words, with nothing left open. */
  method Md5OfChunks(chunks: seq<seq<byte>>) returns (digest: seq<byte>)
    requires forall c :: c in chunks ==> |c| + 63 < 0x8000_0000
    ensures digest == Digest(Compress32, Concat(chunks))
  {
    digest := DigestOfChunks(WORD32, Compress32, chunks);
  }
}
