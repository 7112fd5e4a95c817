/**
 * The word-at-a-time memory functions of edlin (dynstr.c, and strchr of edlib.c). `mem` is
 * the memory they run over; a pointer is an index into it; `unsigned long` has 32 bits.
 */
module MemWords {
  import opened Bytes
  import opened Commons

  const WORD := 4
  const BIG := 16

  /** DETECTNULL */
  function DetectNull(x: word): word { (x - 0x01010101) & !x & 0x80808080 }

  /** The borrow trick finds a zero byte whenever there is one, and only then. */
  lemma DetectNullIsExact(b0: byte, b1: byte, b2: byte, b3: byte)
    ensures DetectNull(Word(b0, b1, b2, b3)) != 0 <==> b0 == 0 || b1 == 0 || b2 == 0 || b3 == 0
  {
  }

  /** The same with 64-bit longs. */
  lemma DetectNull64IsExact(x: bv64)
    ensures (x - 0x0101010101010101) & !x & 0x8080808080808080 != 0 <==>
            x & 0xff == 0 || x & 0xff00 == 0 || x & 0xff_0000 == 0 || x & 0xff00_0000 == 0 ||
            x & 0xff_0000_0000 == 0 || x & 0xff00_0000_0000 == 0 || x & 0xff_0000_0000_0000 == 0 ||
            x & 0xff00_0000_0000_0000 == 0
  {
  }

  /** A word that holds `c` four times. */
  predicate IsMask(m: word, c: byte) {
    m == (c as word) | ((c as word) << 8) | ((c as word) << 16) | ((c as word) << 24)
  }

  /** XOR with the mask leaves a zero byte exactly where the character is. */
  lemma MaskFinds(a0: byte, a1: byte, a2: byte, a3: byte, c: byte)
    ensures var w := (a0 as word) | ((a1 as word) << 8) | ((a2 as word) << 16) | ((a3 as word) << 24);
            var m := (c as word) | ((c as word) << 8) | ((c as word) << 16) | ((c as word) << 24);
            DetectNull(w ^ m) != 0 <==> a0 == c || a1 == c || a2 == c || a3 == c
  {
  }

  /** DETECTCHAR on the word with these bytes */
  method DetectChar(b0: byte, b1: byte, b2: byte, b3: byte, mask: word, ghost c: byte) returns (found: bool)
    requires mask == (c as word) | ((c as word) << 8) | ((c as word) << 16) | ((c as word) << 24)
    ensures found <==> b0 == c || b1 == c || b2 == c || b3 == c
  {
    MaskFinds(b0, b1, b2, b3, c);
    var x := ((b0 as word) | ((b1 as word) << 8) | ((b2 as word) << 16) | ((b3 as word) << 24)) ^ mask;
    found := (x - 0x01010101) & !x & 0x80808080 != 0;
  }

  /** Whether the word at `p` holds the character of the mask. */
  method DetectAt(mem: array<byte>, p: nat, mask: word, ghost c: byte) returns (found: bool)
    requires p + WORD <= mem.Length && IsMask(mask, c)
    ensures found <==> c in mem[p..p + WORD]
  {
    found := DetectChar(mem[p], mem[p + 1], mem[p + 2], mem[p + 3], mask, c);
    assert mem[p..p + WORD] == [mem[p], mem[p + 1], mem[p + 2], mem[p + 3]];
  }

  /** The word that holds `uc` four times. */
  method Mask(uc: byte) returns (mask: word)
    ensures IsMask(mask, uc)
  {
    mask := 0;
    var u := uc as word;
    var i := 0;
    while i < WORD
      invariant 0 <= i <= WORD
      invariant mask == if i == 0 then 0 else if i == 1 then u else if i == 2 then u | (u << 8)
                        else if i == 3 then u | (u << 8) | (u << 16) else u | (u << 8) | (u << 16) | (u << 24)
    {
      mask := (mask << 8) + u;
      i := i + 1;
    }
  }

  /** The first of the `n` bytes at `s` that is `uc`. */
  ghost predicate FirstAt(mem: seq<byte>, s: nat, n: nat, uc: byte, r: Option<nat>)
    requires s + n <= |mem|
  {
    match r
    case None => uc !in mem[s..s + n]
    case Some(p) => s <= p < s + n && mem[p] == uc && uc !in mem[s..p]
  }

  method MemChr(mem: array<byte>, s: nat, uc: byte, n: nat, unaligned: bool) returns (r: Option<nat>)
    requires s + n <= mem.Length
    ensures FirstAt(mem[..], s, n, uc, r)
  {
    var us, left := s, n;
    if n >= WORD && !unaligned {
      var mask := Mask(uc);
      while left >= WORD
        invariant 0 <= left <= n && us == s + (n - left)
        invariant uc !in mem[s..us]
      {
        var found := DetectAt(mem, us, mask, uc);
        if found { break; }
        assert mem[s..us + WORD] == mem[s..us] + mem[us..us + WORD];
        left := left - WORD;
        us := us + WORD;
      }
    }
    while left > 0
      invariant 0 <= left <= n && us == s + (n - left)
      invariant uc !in mem[s..us]
    {
      left := left - 1;
      if mem[us] == uc { return Some(us); }
      us := us + 1;
    }
    return None;
  }

  /** *p = w as a word, for the word that holds the four bytes */
  method Store(mem: array<byte>, p: nat, w: word, ghost b0: byte, ghost b1: byte, ghost b2: byte, ghost b3: byte)
    requires p + WORD <= mem.Length && w == Word(b0, b1, b2, b3)
    modifies mem
    ensures mem[p] == b0 && mem[p + 1] == b1 && mem[p + 2] == b2 && mem[p + 3] == b3
    ensures forall i :: 0 <= i < mem.Length && !(p <= i < p + WORD) ==> mem[i] == old(mem[i])
  {
    WordBytes(b0, b1, b2, b3);
    mem[p], mem[p + 1], mem[p + 2], mem[p + 3] := ByteOf(w, 0), ByteOf(w, 1), ByteOf(w, 2), ByteOf(w, 3);
  }

  /** `m` is `m0` with the `k` bytes at `dst` replaced by those at `src`. */
  ghost predicate Moved(m: seq<byte>, m0: seq<byte>, dst: nat, src: nat, k: nat) {
    && |m| == |m0| && dst + k <= |m0| && src + k <= |m0|
    && (forall i :: 0 <= i < |m0| && !(dst <= i < dst + k) ==> m[i] == m0[i])
    && (forall i :: dst <= i < dst + k ==> m[i] == m0[src + (i - dst)])
  }

  /** `m` is `m0` with the `k` bytes at `dst` set to `c`. */
  ghost predicate Filled(m: seq<byte>, m0: seq<byte>, dst: nat, c: byte, k: nat) {
    && |m| == |m0| && dst + k <= |m0|
    && (forall i :: 0 <= i < |m0| && !(dst <= i < dst + k) ==> m[i] == m0[i])
    && (forall i :: dst <= i < dst + k ==> m[i] == c)
  }

  /** A byte the copy has not reached is still what it was. */
  lemma NotYetMoved(m: seq<byte>, m0: seq<byte>, dst: nat, src: nat, k: nat, i: nat)
    requires Moved(m, m0, dst, src, k) && i < |m| && (i < dst || dst + k <= i)
    ensures m[i] == m0[i]
  {
  }

  /** *pdst++ = *psrc++, one word of a forward copy that has come `k` bytes. */
  method CopyWord(mem: array<byte>, s1: nat, s2: nat, k: nat, ghost m0: seq<byte>)
    requires s1 + k + WORD <= mem.Length && s2 + k + WORD <= mem.Length && (s1 <= s2 || s2 + k + WORD <= s1)
    requires Moved(mem[..], m0, s1, s2, k)
    modifies mem
    ensures Moved(mem[..], m0, s1, s2, k + WORD)
  {
    var p := s2 + k;
    var b0, b1, b2, b3 := mem[p], mem[p + 1], mem[p + 2], mem[p + 3];
    NotYetMoved(mem[..], m0, s1, s2, k, p);
    NotYetMoved(mem[..], m0, s1, s2, k, p + 1);
    NotYetMoved(mem[..], m0, s1, s2, k, p + 2);
    NotYetMoved(mem[..], m0, s1, s2, k, p + 3);
    Store(mem, s1 + k, Word(b0, b1, b2, b3), b0, b1, b2, b3);
  }

  /** *us1++ = *us2++ */
  method CopyByte(mem: array<byte>, s1: nat, s2: nat, k: nat, ghost m0: seq<byte>)
    requires s1 + k < mem.Length && s2 + k < mem.Length && (s1 <= s2 || s2 + k < s1)
    requires Moved(mem[..], m0, s1, s2, k)
    modifies mem
    ensures Moved(mem[..], m0, s1, s2, k + 1)
  {
    NotYetMoved(mem[..], m0, s1, s2, k, s2 + k);
    mem[s1 + k] := mem[s2 + k];
  }

  method MoveBackward(mem: array<byte>, s1: nat, s2: nat, n: nat)
    requires s2 < s1 && s1 + n <= mem.Length
    modifies mem
    ensures Moved(mem[..], old(mem[..]), s1, s2, n)
  {
    var us1, us2, left := s1 + n, s2 + n, n;
    while left > 0
      invariant 0 <= left <= n && us1 == s1 + left && us2 == s2 + left
      invariant forall i :: 0 <= i < mem.Length && !(us1 <= i < s1 + n) ==> mem[i] == old(mem[i])
      invariant forall i :: us1 <= i < s1 + n ==> mem[i] == old(mem[s2 + (i - s1)])
    {
      left := left - 1;
      us1, us2 := us1 - 1, us2 - 1;
      mem[us1] := mem[us2];
    }
  }

  method MoveForward(mem: array<byte>, s1: nat, s2: nat, n: nat, unaligned: bool)
    requires s1 + n <= mem.Length && s2 + n <= mem.Length && (s1 <= s2 || s2 + n <= s1)
    modifies mem
    ensures Moved(mem[..], old(mem[..]), s1, s2, n)
  {
    ghost var m0 := mem[..];
    var k := 0;
    if n >= BIG && !unaligned {
      while n - k >= BIG
        invariant 0 <= k <= n && Moved(mem[..], m0, s1, s2, k)
      {
        CopyWord(mem, s1, s2, k, m0);
        CopyWord(mem, s1, s2, k + WORD, m0);
        CopyWord(mem, s1, s2, k + 2 * WORD, m0);
        CopyWord(mem, s1, s2, k + 3 * WORD, m0);
        k := k + BIG;
      }
      while n - k >= WORD
        invariant 0 <= k <= n && Moved(mem[..], m0, s1, s2, k)
      {
        CopyWord(mem, s1, s2, k, m0);
        k := k + WORD;
      }
    }
    while k < n
      invariant 0 <= k <= n && Moved(mem[..], m0, s1, s2, k)
    {
      CopyByte(mem, s1, s2, k, m0);
      k := k + 1;
    }
  }

  method MemMove(mem: array<byte>, s1: nat, s2: nat, n: nat, unaligned: bool)
    requires s1 + n <= mem.Length && s2 + n <= mem.Length
    modifies mem
    ensures Moved(mem[..], old(mem[..]), s1, s2, n)
  {
    if s2 < s1 && s1 < s2 + n {
      MoveBackward(mem, s1, s2, n);
    } else {
      MoveForward(mem, s1, s2, n, unaligned);
    }
  }

  method StoreMask(mem: array<byte>, s: nat, k: nat, uc: byte, mask: word, ghost m0: seq<byte>)
    requires s + k + WORD <= mem.Length && IsMask(mask, uc)
    requires Filled(mem[..], m0, s, uc, k)
    modifies mem
    ensures Filled(mem[..], m0, s, uc, k + WORD)
  {
    Store(mem, s + k, mask, uc, uc, uc, uc);
  }

  method MemSet(mem: array<byte>, s: nat, uc: byte, n: nat, unaligned: bool)
    requires s + n <= mem.Length
    modifies mem
    ensures Filled(mem[..], old(mem[..]), s, uc, n)
  {
    ghost var m0 := mem[..];
    var k := 0;
    if n >= WORD && !unaligned {
      var mask := Mask(uc);
      while n - k >= BIG
        invariant 0 <= k <= n && Filled(mem[..], m0, s, uc, k)
      {
        StoreMask(mem, s, k, uc, mask, m0);
        StoreMask(mem, s, k + WORD, uc, mask, m0);
        StoreMask(mem, s, k + 2 * WORD, uc, mask, m0);
        StoreMask(mem, s, k + 3 * WORD, uc, mask, m0);
        k := k + BIG;
      }
      while n - k >= WORD
        invariant 0 <= k <= n && Filled(mem[..], m0, s, uc, k)
      {
        StoreMask(mem, s, k, uc, mask, m0);
        k := k + WORD;
      }
    }
    while k < n
      invariant 0 <= k <= n && Filled(mem[..], m0, s, uc, k)
    {
      mem[s + k] := uc;
      k := k + 1;
    }
  }

  lemma NotInWord(w: seq<byte>, c: byte)
    requires c !in w
    ensures forall i :: 0 <= i < |w| ==> w[i] != c
  {
  }

  /** The word loop: up to the word with the NUL or the character. */
  method SkipWords(mem: array<byte>, s: nat, pc: byte, ghost z: nat) returns (p: nat)
    requires s <= z && z + WORD <= mem.Length && mem[z] == 0
    ensures s <= p <= z && forall i :: s <= i < p ==> mem[i] != pc
  {
    p := s;
    var mask := Mask(pc);
    while true
      invariant s <= p <= z && forall i :: s <= i < p ==> mem[i] != pc
      decreases z - p
    {
      var ended := DetectAt(mem, p, 0, 0);
      var found := DetectAt(mem, p, mask, pc);
      if ended || found { break; }
      NotInWord(mem[p..p + WORD], pc);
      NotInWord(mem[p..p + WORD], 0);
      forall i | p <= i < p + WORD ensures mem[i] != pc && mem[i] != 0 {
        assert mem[i] == mem[p..p + WORD][i - p];
      }
      p := p + WORD;
    }
  }

  /** The word loop reads whole words, so the memory holds whole words up to the NUL at `z`. */
  method StrChr(mem: array<byte>, s: nat, pc: byte, unaligned: bool, ghost z: nat) returns (r: Option<nat>)
    requires s <= z && z + WORD <= mem.Length && mem[z] == 0 && 0 !in mem[s..z]
    ensures FirstAt(mem[..], s, z + 1 - s, pc, r)
  {
    var p := s;
    if !unaligned {
      p := SkipWords(mem, s, pc, z);
    }
    while mem[p] != 0 && mem[p] != pc
      invariant s <= p <= z && forall i :: s <= i < p ==> mem[i] != pc
      decreases z - p
    {
      p := p + 1;
    }
    assert p < z ==> mem[p] == mem[s..z][p - s];
    return if mem[p] == pc then Some(p) else None;
  }
}
