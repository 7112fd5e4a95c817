/** The growable strings of edlin/dynstr.c. */
module DynStr {
  import opened Bytes
  import opened Commons
  import opened MemWords

  const NPOS := 0xFFFF_FFFF
  const MIN_SIZE := 31

  /** UNALIGNED is 0 unless _ALIGN is defined. */
  const UNALIGNED := false

  /** `s` with the `n0` characters at `p0` replaced by `t`. */
  function Splice<T>(s: seq<T>, p0: nat, n0: nat, t: seq<T>): (r: seq<T>)
    requires p0 + n0 <= |s|
    ensures |r| == |s| - n0 + |t|
  {
    s[..p0] + t + s[p0 + n0..]
  }

  function Repeat(c: byte, n: nat): (s: seq<byte>)
    ensures |s| == n && forall i :: 0 <= i < n ==> s[i] == c
  {
    seq(n, _ => c)
  }

  function Min(a: nat, b: nat): nat { if a < b then a else b }

  /** The characters of a substring argument: at most `ns` of them from `pos` on. */
  function Slice(s: seq<byte>, pos: nat, ns: nat): (r: seq<byte>)
    requires pos <= |s|
    ensures |r| == Min(ns, |s| - pos)
  {
    s[pos..pos + Min(ns, |s| - pos)]
  }

  /** `pat` stands at position `p` of `s`. */
  predicate MatchAt(s: seq<byte>, pat: seq<byte>, p: nat) {
    p + |pat| <= |s| && s[p..p + |pat|] == pat
  }

  /** Lexicographic order on unsigned characters. */
  ghost predicate Precedes(a: seq<byte>, b: seq<byte>) {
    exists k :: 0 <= k <= |a| && k < |b| && a[..k] == b[..k] && (k == |a| || a[k] < b[k])
  }

  /** memcpy */
  method MemCpy(mem: array<byte>, dst: nat, src: seq<byte>)
    requires dst + |src| <= mem.Length
    modifies mem
    ensures mem[..] == Splice(old(mem[..]), dst, |src|, src)
  {
    forall i | 0 <= i < |src| { mem[dst + i] := src[i]; }
  }

  lemma MovedParts(m0: seq<byte>, m: seq<byte>, p0: nat, dst: nat, src: nat, nm: nat)
    requires p0 <= dst && dst + nm <= |m0| && src + nm <= |m0| && Moved(m, m0, dst, src, nm)
    ensures m[..p0] == m0[..p0] && m[dst..dst + nm] == m0[src..src + nm]
  {
    var a, b := m[dst..dst + nm], m0[src..src + nm];
    forall i | 0 <= i < nm ensures a[i] == b[i] {
      assert m[dst + i] == m0[src + i];
    }
  }

  /** memmove of the `nm` characters at `src`, where nothing below `p0` is touched */
  method MoveTail(mem: array<byte>, ghost p0: nat, dst: nat, src: nat, nm: nat,
                  ghost head: seq<byte>, ghost tail: seq<byte>)
    requires p0 <= dst && dst + nm <= mem.Length && src + nm <= mem.Length
    requires mem[..p0] == head && mem[src..src + nm] == tail
    modifies mem
    ensures mem[..p0] == head && mem[dst..dst + nm] == tail
  {
    ghost var m0 := mem[..];
    MemMove(mem, dst, src, nm, UNALIGNED);
    MovedParts(m0, mem[..], p0, dst, src, nm);
  }

  lemma Sandwich(m0: seq<byte>, m: seq<byte>, p0: nat, t: seq<byte>, head: seq<byte>, tail: seq<byte>)
    requires |head| == p0 && p0 + |t| + |tail| <= |m0| && m == Splice(m0, p0, |t|, t)
    requires m0[..p0] == head && m0[p0 + |t|..p0 + |t| + |tail|] == tail
    ensures m[..p0 + |t| + |tail|] == head + t + tail
  {
    assert m == head + t + m0[p0 + |t|..];
    assert m0[p0 + |t|..][..|tail|] == tail;
  }

  /** memcpy of `t` to `p0` between what stands before it and the characters kept behind it */
  method CopyOver(mem: array<byte>, p0: nat, t: seq<byte>, ghost head: seq<byte>, ghost tail: seq<byte>)
    requires |head| == p0 && p0 + |t| + |tail| <= mem.Length
    requires mem[..p0] == head && mem[p0 + |t|..p0 + |t| + |tail|] == tail
    modifies mem
    ensures mem[..p0 + |t| + |tail|] == head + t + tail
  {
    ghost var m0 := mem[..];
    MemCpy(mem, p0, t);
    Sandwich(m0, mem[..], p0, t, head, tail);
  }

  /** A buffer that holds `c` holds its two parts. */
  lemma Parts(m: seq<byte>, c: seq<byte>, p: nat)
    requires p <= |c| <= |m| && m[..|c|] == c
    ensures m[..p] == c[..p] && m[p..|c|] == c[p..]
  {
  }

  ghost predicate NoMatch(s: seq<byte>, pat: seq<byte>, lo: nat, hi: nat) {
    forall q: nat :: lo <= q < hi ==> !MatchAt(s, pat, q)
  }

  /** Where the first character does not occur, the pattern does not start. */
  lemma NoFirstCharacter(s: seq<byte>, pat: seq<byte>, u: nat, v: nat)
    requires 0 < |pat| && u <= v <= |s| && pat[0] !in s[u..v]
    ensures NoMatch(s, pat, u, v)
  {
    forall q | u <= q < v ensures !MatchAt(s, pat, q) {
      assert s[q] == s[u..v][q - u];
      assert q + |pat| <= |s| ==> s[q..q + |pat|][0] == s[q];
    }
  }

  lemma NoMatchFrom(s: seq<byte>, pat: seq<byte>, t: nat, hi: nat)
    requires NoMatch(s, pat, t + 1, hi) && !MatchAt(s, pat, t)
    ensures NoMatch(s, pat, t, hi)
  {
  }

  class DString {
    var ptr: array?<byte>
    var len: nat
    var res: nat

    /** What holds even while a member function is at work on the characters. */
    ghost predicate Shape()
      reads this
    {
      && res <= NPOS
      && (ptr == null ==> len == 0)
      && (ptr != null ==> ptr.Length == res + 1 && len <= res < NPOS)
    }

    /** No characters without a buffer, and a NUL after the characters. */
    ghost predicate Valid()
      reads this, ptr
    {
      Shape() && (ptr != null ==> ptr[len] == 0)
    }

    ghost function Contents(): (s: seq<byte>)
      reads this, ptr
      requires Shape()
      ensures |s| == len
    {
      if ptr == null then [] else ptr[..len]
    }

    /** A part of the buffer is a part of the contents. */
    lemma Part(u: nat, v: nat)
      requires Shape() && ptr != null && u <= v <= len
      ensures ptr[u..v] == Contents()[u..v]
    {
    }

    lemma HeadAndTail(p: nat, q: nat, nm: nat)
      requires Shape() && ptr != null && p <= len && q + nm == len
      ensures ptr[..p] == Contents()[..p] && ptr[q..q + nm] == Contents()[q..]
    {
    }

    ghost function Repr(): set<object>
      reads this
    {
      if ptr == null then {this} else {this, ptr}
    }

    constructor ()
      ensures Valid() && Contents() == [] && ptr == null && res == 0
    {
      ptr, len, res := null, 0, 0;
    }

    /** DSgrow: room for `n` characters; the old ones are kept as far as they fit. */
    method Grow(n: nat, trim: bool) returns (more: bool)
      requires Shape() && n < NPOS
      modifies Repr()
      ensures fresh(Repr() - old(Repr())) && more == (n > 0)
      ensures n == 0 ==> Valid() && Contents() == []
      ensures n > 0 ==> ptr != null && ptr.Length == res + 1 && n <= res < NPOS && len == old(len)
      ensures n > 0 && !trim ==> old(len) <= res && ptr[..old(len)] == old(Contents())
      ensures !trim && 0 < n <= old(res) && old(ptr) != null ==>
                ptr == old(ptr) && ptr[..] == old(ptr[..]) && res == old(res)
    {
      var osize := if ptr == null then 0 else res;
      if n == 0 {
        if trim && MIN_SIZE < osize {
          ptr, len, res := null, 0, 0;
        } else if ptr != null {
          len := 0;
          ptr[len] := 0;
        }
        return false;
      }
      if n == osize || (n < osize && !trim) { return true; }
      var size := if ptr == null && n < res then res else n;
      size := size - size % 32 + MIN_SIZE;
      if size == NPOS {
        size := size - 1;
      }
      var s := new byte[size + 1];
      if ptr != null {
        forall i | 0 <= i < Min(ptr.Length, s.Length) { s[i] := ptr[i]; }
      }
      ptr, res := s, size;
      return true;
    }

    /** this->ptr[this->len = n] = '\0' */
    method Terminate(n: nat)
      requires ptr != null && ptr.Length == res + 1 && n <= res < NPOS
      modifies this`len, ptr
      ensures Valid() && Contents() == old(ptr[..n])
    {
      len := n;
      ptr[len] := 0;
    }

    /** DSappendchar; `ok` is false where the program aborts. */
    method AppendChar(c: byte, nr: nat) returns (ok: bool)
      requires Valid()
      modifies Repr()
      ensures fresh(Repr() - old(Repr())) && Valid()
      ensures ok == (old(len) + nr < NPOS)
      ensures Contents() == if ok then old(Contents()) + Repeat(c, nr) else old(Contents())
    {
      if NPOS - len <= nr { return false; }
      if 0 < nr {
        var n := len + nr;
        var more := Grow(n, false);
        MemSet(ptr, len, c, nr, UNALIGNED);
        Terminate(n);
      }
      return true;
    }

    ghost function Taken(pos: nat, ns: nat): seq<byte>
      reads this, ptr
      requires Shape() && pos <= len
    {
      Slice(Contents(), pos, ns)
    }

    /** Lines 525 to 528 */
    method AppendFrom(str: DString, pos: nat, m: nat)
      requires Valid()
      modifies Repr()
      ensures fresh(Repr() - old(Repr())) && Valid()
      requires str.Valid() && (str == this || str.Repr() !! Repr())
      requires 0 < m && pos + m <= str.len && len + m < NPOS
      ensures Contents() == old(Contents()) + old(str.Contents())[pos..pos + m]
    {
      ghost var c, t := Contents(), str.Contents();
      var n := len + m;
      var more := Grow(n, false);
      str.Part(pos, pos + m);
      assert str.Contents() == t;
      MemCpy(ptr, len, str.ptr[pos..pos + m]);
      assert ptr[..n] == c + t[pos..pos + m];
      Terminate(n);
    }

    /** `str` may be this string: it is read only after the buffer has grown. */
    method Append(str: DString, pos: nat, ns: nat) returns (ok: bool)
      requires Valid()
      modifies Repr()
      ensures fresh(Repr() - old(Repr())) && Valid()
      requires str.Valid() && (str == this || str.Repr() !! Repr())
      ensures ok == (pos <= old(str.len) && old(len) + Min(ns, old(str.len) - pos) < NPOS)
      ensures Contents() == if ok then old(Contents()) + old(str.Taken(pos, ns)) else old(Contents())
    {
      if str.len < pos { return false; }
      var m := Min(ns, str.len - pos);
      if NPOS - len <= m { return false; }
      if 0 < m {
        AppendFrom(str, pos, m);
      }
      return true;
    }

    method AssignChar(c: byte, n: nat) returns (ok: bool)
      requires Valid()
      modifies Repr()
      ensures fresh(Repr() - old(Repr())) && Valid()
      ensures ok == (n != NPOS)
      requires n <= NPOS
      ensures Contents() == if ok then Repeat(c, n) else old(Contents())
    {
      if n == NPOS { return false; }
      var more := Grow(n, true);
      if more {
        MemSet(ptr, 0, c, n, UNALIGNED);
        Terminate(n);
      }
      return true;
    }

    method Shorten(n: nat)
      requires Shape() && ptr != null && n <= res
      modifies Repr()
      ensures fresh(Repr() - old(Repr())) && Valid() && Contents() == old(ptr[..n])
    {
      ghost var m := ptr[..];
      var more := Grow(n, false);
      if more {
        assert ptr[..] == m;
        Terminate(n);
      }
    }

    /** Lines 668 to 674 */
    method RemoveSome(p0: nat, m: nat)
      requires Valid() && p0 + m <= len && 0 < m
      modifies Repr()
      ensures fresh(Repr() - old(Repr())) && Valid()
      ensures Contents() == Splice(old(Contents()), p0, m, [])
    {
      ghost var c := Contents();
      ghost var head, tail := c[..p0], c[p0 + m..];
      var nm := len - p0 - m;
      HeadAndTail(p0, p0 + m, nm);
      MoveTail(ptr, p0, p0, p0 + m, nm, head, tail);
      assert ptr[..p0 + nm] == head + tail;
      Shorten(p0 + nm);
      assert Splice(c, p0, m, []) == head + tail;
    }

    method Remove(p0: nat, nr: nat) returns (ok: bool)
      requires Valid()
      modifies Repr()
      ensures fresh(Repr() - old(Repr())) && Valid()
      ensures ok == (p0 <= old(len))
      ensures Contents() == if ok then Splice(old(Contents()), p0, Min(nr, old(len) - p0), []) else old(Contents())
    {
      if len < p0 { return false; }
      var m := Min(nr, len - p0);
      ghost var c := Contents();
      if 0 < m {
        RemoveSome(p0, m);
      } else {
        assert Splice(c, p0, m, []) == c;
      }
      return true;
    }

    /** What lies behind the part goes first, then what lies before it. */
    method Narrow(pos: nat, n: nat)
      requires Valid() && pos + n <= len && len < NPOS
      modifies Repr()
      ensures fresh(Repr() - old(Repr())) && Valid()
      ensures Contents() == old(Contents())[pos..pos + n]
    {
      ghost var c := Contents();
      var ok := Remove(pos + n, NPOS);
      assert Contents() == c[..pos + n];
      ok := Remove(0, pos);
      assert Contents() == c[..pos + n][pos..];
    }

    /** Lines 584 to 588 */
    method AssignSome(t: seq<byte>)
      requires Valid()
      modifies Repr()
      ensures fresh(Repr() - old(Repr())) && Valid()
      requires |t| < NPOS
      ensures Contents() == t
    {
      var more := Grow(|t|, true);
      if more {
        MemCpy(ptr, 0, t);
        Terminate(|t|);
      }
    }

    /** Also when `str` is this string. */
    method Assign(str: DString, pos: nat, ns: nat) returns (ok: bool)
      requires Valid()
      modifies Repr()
      ensures fresh(Repr() - old(Repr())) && Valid()
      requires str.Valid() && (str == this || str.Repr() !! Repr())
      ensures ok == (pos <= old(str.len))
      ensures Contents() == if ok then old(str.Taken(pos, ns)) else old(Contents())
    {
      if str.len < pos { return false; }
      var n := Min(ns, str.len - pos);
      ghost var c, t := Contents(), str.Taken(pos, ns);
      if this == str {
        Narrow(pos, n);
        ok := true;
      } else {
        var t' := if str.ptr == null then [] else str.ptr[pos..pos + n];
        if str.ptr != null { str.Part(pos, pos + n); }
        assert t' == t;
        AssignSome(t');
        ok := true;
      }
    }

    /** `t` comes between head and tail, and the string ends behind them. */
    method Put(p0: nat, t: seq<byte>, nm: nat, ghost head: seq<byte>, ghost tail: seq<byte>)
      requires ptr != null && ptr.Length == res + 1 && p0 + |t| + nm <= res < NPOS
      requires |head| == p0 && |tail| == nm && ptr[..p0] == head && ptr[p0 + |t|..p0 + |t| + nm] == tail
      modifies this`len, ptr
      ensures Valid() && Contents() == head + t + tail
    {
      CopyOver(ptr, p0, t, head, tail);
      Terminate(p0 + |t| + nm);
    }

    /** The buffer has room: the tail moves up, and `t` comes between head and tail. */
    method Lay(p0: nat, n0: nat, t: seq<byte>, nm: nat, ghost head: seq<byte>, ghost tail: seq<byte>)
      requires ptr != null && ptr.Length == res + 1 && p0 + |t| + nm <= res < NPOS && n0 <= |t|
      requires |head| == p0 && |tail| == nm && ptr[..p0] == head && ptr[p0 + n0..p0 + n0 + nm] == tail
      modifies this`len, ptr
      ensures Valid() && Contents() == head + t + tail
    {
      if n0 < |t| {
        MoveTail(ptr, p0, p0 + |t|, p0 + n0, nm, head, tail);
      }
      Put(p0, t, nm, head, tail);
    }

    /** Lines 649 to 653 */
    method InsertSome(p0: nat, t: seq<byte>)
      requires Valid()
      modifies Repr()
      ensures fresh(Repr() - old(Repr())) && Valid()
      requires p0 <= len && 0 < |t| && len + |t| < NPOS
      ensures Contents() == Splice(old(Contents()), p0, 0, t)
    {
      ghost var c := Contents();
      var more := Grow(len + |t|, false);
      Parts(ptr[..], c, p0);
      Lay(p0, 0, t, len - p0, c[..p0], c[p0..]);
      assert Splice(c, p0, 0, t) == c[..p0] + t + c[p0..];
    }

    method Insert(p0: nat, str: DString, pos: nat, ns: nat) returns (ok: bool)
      requires Valid()
      modifies Repr()
      ensures fresh(Repr() - old(Repr())) && Valid()
      requires str.Valid() && str.Repr() !! Repr()
      ensures ok == (p0 <= old(len) && pos <= str.len && old(len) + Min(ns, str.len - pos) < NPOS)
      ensures Contents() == if ok then Splice(old(Contents()), p0, 0, old(str.Taken(pos, ns))) else old(Contents())
    {
      if len < p0 || str.len < pos { return false; }
      var m := Min(ns, str.len - pos);
      if NPOS - len <= m { return false; }
      ghost var c, t := Contents(), str.Taken(pos, ns);
      if 0 < m {
        assert str.ptr[pos..pos + m] == t;
        InsertSome(p0, str.ptr[pos..pos + m]);
      } else {
        assert t == [] && Splice(c, p0, 0, t) == c;
      }
      return true;
    }

    /** The tail has moved down; the buffer stays. */
    method Shrink(p0: nat, t: seq<byte>, nm: nat, ghost head: seq<byte>, ghost tail: seq<byte>)
      requires Shape() && ptr != null && p0 + |t| + nm <= res
      requires |head| == p0 && |tail| == nm && ptr[..p0] == head && ptr[p0 + |t|..p0 + |t| + nm] == tail
      modifies Repr()
      ensures fresh(Repr() - old(Repr())) && Valid() && Contents() == head + t + tail
    {
      ghost var m := ptr[..];
      var more := Grow(p0 + |t| + nm, false);
      if more {
        assert ptr[..] == m;
        Put(p0, t, nm, head, tail);
      }
    }

    method ReplaceShorter(p0: nat, n0: nat, t: seq<byte>)
      requires Valid()
      modifies Repr()
      ensures fresh(Repr() - old(Repr())) && Valid()
      requires p0 + n0 <= len && |t| < n0
      ensures Contents() == Splice(old(Contents()), p0, n0, t)
    {
      ghost var c := Contents();
      var nm := len - n0 - p0;
      ghost var head, tail := c[..p0], c[p0 + n0..];
      HeadAndTail(p0, p0 + n0, nm);
      MoveTail(ptr, p0, p0 + |t|, p0 + n0, nm, head, tail);
      Shrink(p0, t, nm, head, tail);
      assert Splice(c, p0, n0, t) == head + t + tail;
    }

    method ReplaceLonger(p0: nat, n0: nat, t: seq<byte>)
      requires Valid()
      modifies Repr()
      ensures fresh(Repr() - old(Repr())) && Valid()
      requires p0 + n0 <= len && n0 <= |t| && 0 < |t| && len - n0 + |t| < NPOS
      ensures Contents() == Splice(old(Contents()), p0, n0, t)
    {
      ghost var c := Contents();
      var nm := len - n0 - p0;
      var more := Grow(len + |t| - n0, false);
      Parts(ptr[..], c, p0);
      Parts(ptr[..], c, p0 + n0);
      Lay(p0, n0, t, nm, c[..p0], c[p0 + n0..]);
      assert Splice(c, p0, n0, t) == c[..p0] + t + c[p0 + n0..];
    }

    /** Lines 747 to 756: the tail moves before the buffer may shrink, or after it has grown. */
    method ReplaceSome(p0: nat, n0: nat, t: seq<byte>)
      requires Valid()
      modifies Repr()
      ensures fresh(Repr() - old(Repr())) && Valid()
      requires p0 + n0 <= len && len - n0 + |t| < NPOS
      ensures Contents() == Splice(old(Contents()), p0, n0, t)
    {
      if |t| < n0 {
        ReplaceShorter(p0, n0, t);
      } else if 0 < |t| {
        ReplaceLonger(p0, n0, t);
      } else {
        assert Splice(Contents(), p0, n0, t) == Contents();
      }
    }

    /** A part of the characters as a value. */
    method Read(pos: nat, m: nat) returns (s: seq<byte>)
      requires Valid() && pos + m <= len
      ensures s == Contents()[pos..pos + m]
    {
      if ptr == null { return []; }
      Part(pos, pos + m);
      s := ptr[pos..pos + m];
    }

    method ReplaceFrom(p0: nat, n0: nat, str: DString, pos: nat, m: nat)
      requires Valid()
      modifies Repr()
      ensures fresh(Repr() - old(Repr())) && Valid()
      requires p0 + n0 <= len && str.Valid() && str.Repr() !! Repr()
      requires pos + m <= str.len && len - n0 + m < NPOS
      ensures Contents() == Splice(old(Contents()), p0, n0, old(str.Contents())[pos..pos + m])
    {
      var t := str.Read(pos, m);
      ReplaceSome(p0, n0, t);
    }

    method Replace(p0: nat, n0: nat, str: DString, pos: nat, ns: nat) returns (ok: bool)
      requires Valid()
      modifies Repr()
      ensures fresh(Repr() - old(Repr())) && Valid()
      requires p0 + n0 <= len && str.Valid() && str.Repr() !! Repr()
      ensures ok == (pos <= str.len && old(len) - n0 + Min(ns, str.len - pos) < NPOS)
      ensures Contents() == if ok then Splice(old(Contents()), p0, n0, old(str.Taken(pos, ns))) else old(Contents())
    {
      if len < p0 || str.len < pos { return false; }
      var m := Min(ns, str.len - pos);
      if NPOS - m <= len - n0 { return false; }
      assert str.Taken(pos, ns) == str.Contents()[pos..pos + m];
      ReplaceFrom(p0, n0, str, pos, m);
      return true;
    }

    method Resize(n: nat, c: byte) returns (ok: bool)
      requires Valid()
      modifies Repr()
      ensures fresh(Repr() - old(Repr())) && Valid()
      ensures ok == (n < NPOS)
      ensures Contents() == if !ok then old(Contents()) else if n <= old(len) then old(Contents())[..n]
                            else old(Contents()) + Repeat(c, n - old(len))
    {
      if n < len {
        ok := Remove(n, NPOS);
      } else {
        ok := AppendChar(c, n - len);
      }
    }

    method SetReserve(n: nat)
      requires Valid() && n <= NPOS
      modifies this
      ensures Valid() && Contents() == old(Contents()) && Repr() == old(Repr())
      ensures res == if ptr == null then n else old(res)
    {
      if ptr == null {
        res := n;
      }
    }

    /** The characters as a value. */
    method Chars() returns (s: seq<byte>)
      requires Valid()
      ensures s == Contents()
    {
      s := if ptr == null then [] else ptr[..len];
    }

    /** The loop of DSfind: from one first character to the next. */
    method Search(pat: seq<byte>, p0: nat) returns (p: nat)
      requires Valid() && 0 < |pat| && p0 + |pat| <= len < NPOS
      ensures p != NPOS ==> p0 <= p && MatchAt(Contents(), pat, p)
      ensures NoMatch(Contents(), pat, p0, p)
    {
      ghost var c := Contents();
      var n := |pat|;
      var nmax, u := len - p0 - (n - 1), p0;
      while true
        invariant 0 <= nmax && p0 <= u && u + nmax == len - n + 1
        invariant NoMatch(c, pat, p0, u)
        decreases nmax
      {
        var t := MemChr(ptr, u, pat[0], nmax, UNALIGNED);
        ghost var v := match t case None => u + nmax case Some(i) => i;
        Part(u, v);
        NoFirstCharacter(c, pat, u, v);
        if t == None { break; }
        Part(v, v + n);
        if ptr[t.value..t.value + n] == pat {
          return t.value;
        }
        nmax := nmax - (t.value - u + 1);
        u := t.value + 1;
      }
      return NPOS;
    }

    /** DSfind: the first place at or after `p0` where the first `n` characters of `s` stand. */
    method Find(s: seq<byte>, p0: nat, n: nat) returns (p: nat)
      requires Valid() && n <= |s| && len < NPOS
      ensures n == 0 ==> p == 0
      ensures 0 < n && p != NPOS ==> p0 <= p && MatchAt(Contents(), s[..n], p)
      ensures 0 < n ==> NoMatch(Contents(), s[..n], p0, p)
    {
      if n == 0 { return 0; }
      if p0 < len && n <= len - p0 {
        p := Search(s[..n], p0);
        return p;
      }
      return NPOS;
    }

    method IsAt(pat: seq<byte>, t: nat) returns (here: bool)
      requires Valid() && 0 < |pat| && t + |pat| <= len
      ensures here <==> MatchAt(Contents(), pat, t)
    {
      Part(t, t + |pat|);
      assert Contents()[t..t + |pat|][0] == ptr[t];
      here := ptr[t] == pat[0] && ptr[t..t + |pat|] == pat;
    }

    /** The loop of DSrfind: from place to place towards the front. */
    method SearchBack(pat: seq<byte>, p0: nat) returns (p: nat)
      requires Valid() && 0 < |pat| <= len < NPOS
      ensures p != NPOS ==> p <= p0 && MatchAt(Contents(), pat, p)
      ensures NoMatch(Contents(), pat, if p == NPOS then 0 else p + 1, p0 + 1)
    {
      ghost var c := Contents();
      var n := |pat|;
      var t: nat := if p0 < len - n then p0 else len - n;
      while true
        invariant t <= p0 && t + n <= len
        invariant NoMatch(c, pat, t + 1, p0 + 1)
        decreases t
      {
        var here := IsAt(pat, t);
        if here { return t; }
        NoMatchFrom(c, pat, t, p0 + 1);
        if t == 0 { break; }
        t := t - 1;
      }
      return NPOS;
    }

    /** DSrfind: the last place at or before `p0`. */
    method RFind(s: seq<byte>, p0: nat, n: nat) returns (p: nat)
      requires Valid() && n <= |s| && len < NPOS
      ensures n == 0 ==> p == 0
      ensures 0 < n && p != NPOS ==> p <= p0 && MatchAt(Contents(), s[..n], p)
      ensures 0 < n ==> forall q: nat :: (p == NPOS || p < q) && q <= p0 ==> !MatchAt(Contents(), s[..n], q)
    {
      if n == 0 { return 0; }
      if n <= len {
        p := SearchBack(s[..n], p0);
        return p;
      }
      return NPOS;
    }
  }

  /** The first difference decides the order. */
  lemma FirstDifference(a: seq<byte>, b: seq<byte>, i: nat)
    requires i < |a| && i < |b| && a[..i] == b[..i] && a[i] != b[i]
    ensures Precedes(a, b) <==> a[i] < b[i]
  {
  }

  /** memcmp */
  method MemCmp(a: seq<byte>, b: seq<byte>) returns (r: int)
    requires |a| == |b|
    ensures r == 0 <==> a == b
    ensures r < 0 <==> Precedes(a, b)
    ensures r != 0 ==> exists k :: 0 <= k < |a| && a[..k] == b[..k] && a[k] != b[k] && (r < 0 <==> a[k] < b[k])
  {
    var i := 0;
    while i < |a|
      invariant 0 <= i <= |a| && a[..i] == b[..i]
    {
      if a[i] != b[i] {
        FirstDifference(a, b, i);
        return if a[i] < b[i] then -1 else 1;
      }
      i := i + 1;
    }
    assert a[..|a|] == a && b[..|b|] == b;
    return 0;
  }

  /** When one string is no longer than `k` and both agree up to `k`, the lengths decide; otherwise the prefixes do. */
  lemma PrefixDecides(a: seq<byte>, b: seq<byte>, k: nat)
    requires k <= |a| && k <= |b| && (k == |a| || k == |b|)
    ensures a[..k] == b[..k] ==> (Precedes(a, b) <==> |a| < |b|) && (a == b <==> |a| == |b|)
    ensures forall i :: 0 <= i < k && a[..k][..i] == b[..k][..i] && a[..k][i] != b[..k][i] ==>
              (Precedes(a, b) <==> a[i] < b[i])
  {
    forall i | 0 <= i < k && a[..k][..i] == b[..k][..i] && a[..k][i] != b[..k][i]
      ensures Precedes(a, b) <==> a[i] < b[i]
    {
      assert a[..k][..i] == a[..i] && b[..k][..i] == b[..i];
      FirstDifference(a, b, i);
    }
  }

  /** DScompare of the characters from `p0` on with the first `ns` of `str`; None where it aborts. */
  method Compare(self: DString, str: DString, p0: nat, ns: nat) returns (r: Option<int>)
    requires self.Valid() && str.Valid()
    ensures r == None <==> self.len < p0
    ensures r.Some? ==>
              var a, b := self.Contents()[p0..], str.Contents()[..Min(ns, str.len)];
              (r.value == 0 <==> a == b) && (r.value < 0 <==> Precedes(a, b))
  {
    if self.len < p0 { return None; }
    var n := self.len - p0;
    var m := Min(ns, str.len);
    var k := Min(n, m);
    var a := if self.ptr == null then [] else self.ptr[p0..self.len];
    var b := if str.ptr == null then [] else str.ptr[..m];
    assert a == self.Contents()[p0..] && b == str.Contents()[..m];
    var ans := MemCmp(a[..k], b[..k]);
    PrefixDecides(a, b, k);
    return Some(if ans != 0 then ans else if n < m then -1 else if n > m then 1 else 0);
  }

  /** A call on a string; the calls with a source take it from a second string, or from itself where the name says so. */
  datatype Call =
    | AppendChar(c: byte, nr: nat)
    | Append(pos: nat, ns: nat)
    | AppendSelf(pos: nat, ns: nat)
    | AssignChar(c: byte, n: nat)
    | Assign(pos: nat, ns: nat)
    | AssignSelf(pos: nat, ns: nat)
    | Insert(p0: nat, pos: nat, ns: nat)
    | Remove(p0: nat, nr: nat)
    | Replace(p0: nat, n0: nat, pos: nat, ns: nat)
    | Resize(n: nat, c: byte)
    | SetReserve(n: nat)

  function Bounded(s: seq<byte>): Option<seq<byte>> {
    if |s| < NPOS then Some(s) else None
  }

  /** What a call makes of the characters `s`, with `o` those of the second string; None where the program aborts. */
  function Effect(s: seq<byte>, o: seq<byte>, call: Call): Option<seq<byte>> {
    match call
    case AppendChar(c, nr) => Bounded(s + Repeat(c, nr))
    case Append(pos, ns) => if pos <= |o| then Bounded(s + Slice(o, pos, ns)) else None
    case AppendSelf(pos, ns) => if pos <= |s| then Bounded(s + Slice(s, pos, ns)) else None
    case AssignChar(c, n) => Bounded(Repeat(c, n))
    case Assign(pos, ns) => if pos <= |o| then Some(Slice(o, pos, ns)) else None
    case AssignSelf(pos, ns) => if pos <= |s| then Some(Slice(s, pos, ns)) else None
    case Insert(p0, pos, ns) => if p0 <= |s| && pos <= |o| then Bounded(Splice(s, p0, 0, Slice(o, pos, ns))) else None
    case Remove(p0, nr) => if p0 <= |s| then Some(Splice(s, p0, Min(nr, |s| - p0), [])) else None
    case Replace(p0, n0, pos, ns) =>
      if p0 + n0 <= |s| && pos <= |o| then Bounded(Splice(s, p0, n0, Slice(o, pos, ns))) else None
    case Resize(n, c) => if n <= |s| then Some(s[..n]) else Bounded(s + Repeat(c, n - |s|))
    case SetReserve(n) => Some(s)
  }

  function Effects(s: seq<byte>, o: seq<byte>, calls: seq<Call>): Option<seq<byte>>
    decreases |calls|
  {
    if |calls| == 0 then Some(s)
    else
      match Effects(s, o, calls[..|calls| - 1])
      case None => None
      case Some(t) => Effect(t, o, calls[|calls| - 1])
  }

  /** The calls respect what DSreplace asks of its callers, and sizes do not go beyond NPOS. */
  ghost predicate Admissible(s: seq<byte>, o: seq<byte>, calls: seq<Call>) {
    forall i {:trigger calls[i]} :: 0 <= i < |calls| ==>
      match calls[i]
      case Replace(p0, n0, pos, ns) =>
        (match Effects(s, o, calls[..i]) case None => true case Some(t) => p0 + n0 <= |t|)
      case AssignChar(c, n) => n <= NPOS
      case SetReserve(n) => n <= NPOS
      case _ => true
  }

  method PerformAlone(str: DString, call: Call) returns (ok: bool)
    requires str.Valid() && !call.Append? && !call.Assign? && !call.Insert? && !call.Replace?
    requires (call.AssignChar? || call.SetReserve?) ==> call.n <= NPOS
    modifies str.Repr()
    ensures str.Valid() && fresh(str.Repr() - old(str.Repr()))
    ensures Effect(old(str.Contents()), [], call) == if ok then Some(str.Contents()) else None
  {
    ghost var e := Effect(str.Contents(), [], call);
    match call
    case AppendChar(c, nr) =>
      ok := str.AppendChar(c, nr);
      assert if ok then e == Some(str.Contents()) else e == None;
    case AppendSelf(pos, ns) =>
      ok := str.Append(str, pos, ns);
      assert if ok then e == Some(str.Contents()) else e == None;
    case AssignChar(c, n) =>
      ok := str.AssignChar(c, n);
      assert if ok then e == Some(str.Contents()) else e == None;
    case AssignSelf(pos, ns) =>
      ok := str.Assign(str, pos, ns);
      assert if ok then e == Some(str.Contents()) else e == None;
    case Remove(p0, nr) =>
      ok := str.Remove(p0, nr);
      assert if ok then e == Some(str.Contents()) else e == None;
    case Resize(n, c) =>
      ok := str.Resize(n, c);
      assert if ok then e == Some(str.Contents()) else e == None;
    case SetReserve(n) =>
      str.SetReserve(n);
      ok := true;
  }

  method PerformCopy(str: DString, other: DString, call: Call) returns (ok: bool)
    requires str.Valid() && other.Valid() && str.Repr() !! other.Repr() && (call.Append? || call.Assign?)
    modifies str.Repr()
    ensures str.Valid() && fresh(str.Repr() - old(str.Repr()))
    ensures Effect(old(str.Contents()), old(other.Contents()), call) == if ok then Some(str.Contents()) else None
  {
    ghost var e := Effect(str.Contents(), other.Contents(), call);
    match call
    case Append(pos, ns) =>
      ok := str.Append(other, pos, ns);
      assert if ok then e == Some(str.Contents()) else e == None;
    case Assign(pos, ns) =>
      ok := str.Assign(other, pos, ns);
      assert if ok then e == Some(str.Contents()) else e == None;
  }

  method PerformInsert(str: DString, other: DString, call: Call) returns (ok: bool)
    requires str.Valid() && other.Valid() && str.Repr() !! other.Repr() && call.Insert?
    modifies str.Repr()
    ensures str.Valid() && fresh(str.Repr() - old(str.Repr()))
    ensures Effect(old(str.Contents()), old(other.Contents()), call) == if ok then Some(str.Contents()) else None
  {
    ghost var e := Effect(str.Contents(), other.Contents(), call);
    var p0, pos, ns := call.p0, call.pos, call.ns;
    ghost var s, o := str.Contents(), other.Contents();
    assert e == if p0 <= |s| && pos <= |o| then Bounded(Splice(s, p0, 0, Slice(o, pos, ns))) else None;
    ok := str.Insert(p0, other, pos, ns);
    assert if ok then e == Some(str.Contents()) else e == None;
  }

  lemma ReplaceEffect(s: seq<byte>, o: seq<byte>, call: Call, t: seq<byte>)
    requires call.Replace? && call.p0 + call.n0 <= |s|
    requires t == Slice(o, if call.pos <= |o| then call.pos else 0, call.ns)
    ensures Effect(s, o, call) ==
            if call.pos <= |o| && |s| - call.n0 + |t| < NPOS then Some(Splice(s, call.p0, call.n0, t)) else None
  {
  }

  method PerformReplace(str: DString, other: DString, call: Call) returns (ok: bool)
    requires str.Valid() && other.Valid() && str.Repr() !! other.Repr() && call.Replace?
    requires call.p0 + call.n0 <= str.len
    modifies str.Repr()
    ensures str.Valid() && fresh(str.Repr() - old(str.Repr()))
    ensures Effect(old(str.Contents()), old(other.Contents()), call) == if ok then Some(str.Contents()) else None
  {
    ghost var s, o := str.Contents(), other.Contents();
    ReplaceEffect(s, o, call, Slice(o, if call.pos <= |o| then call.pos else 0, call.ns));
    ok := str.Replace(call.p0, call.n0, other, call.pos, call.ns);
  }

  method Perform(str: DString, other: DString, call: Call) returns (ok: bool)
    requires str.Valid() && other.Valid() && str.Repr() !! other.Repr()
    requires call.Replace? ==> call.p0 + call.n0 <= str.len
    requires (call.AssignChar? || call.SetReserve?) ==> call.n <= NPOS
    modifies str.Repr()
    ensures str.Valid() && fresh(str.Repr() - old(str.Repr()))
    ensures Effect(old(str.Contents()), old(other.Contents()), call) == if ok then Some(str.Contents()) else None
  {
    match call
    case Append(_, _) | Assign(_, _) => ok := PerformCopy(str, other, call);
    case Insert(_, _, _) => ok := PerformInsert(str, other, call);
    case Replace(_, _, _, _) => ok := PerformReplace(str, other, call);
    case _ => ok := PerformAlone(str, call);
  }

  /** Over any run of calls the string stays well formed and holds what the sequence operations give. */
  method PerformAll(str: DString, other: DString, calls: seq<Call>) returns (ok: bool)
    requires str.Valid() && other.Valid() && str.Repr() !! other.Repr()
    requires Admissible(str.Contents(), other.Contents(), calls)
    modifies str.Repr()
    ensures str.Valid()
    ensures match Effects(old(str.Contents()), old(other.Contents()), calls)
            case None => !ok
            case Some(t) => ok && str.Contents() == t
  {
    ghost var s, o := str.Contents(), other.Contents();
    ok := true;
    for i := 0 to |calls|
      invariant str.Valid() && fresh(str.Repr() - old(str.Repr())) && str.Repr() !! other.Repr()
      invariant other.Valid() && other.Contents() == o
      invariant Effects(s, o, calls[..i]) == if ok then Some(str.Contents()) else None
    {
      assert calls[..i + 1][..i] == calls[..i];
      if ok {
        ok := Perform(str, other, calls[i]);
      }
    }
    assert calls[..|calls|] == calls;
  }
}
