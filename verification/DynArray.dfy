/**
 * The growable arrays of edlin/dynarray.h. Tassign is the header's own default, assignment of
 * the element's value; for the array of strings DSassign is what makes that assignment.
 */
module DynArray {
  import opened DynStr

  /** The `n` elements a source argument stands for: consecutive ones (`d` is 1) or copies of the first (`d` is 0). */
  function Items<T>(s: seq<T>, n: nat, d: nat): (r: seq<T>)
    requires d <= 1 && (if d == 1 then n <= |s| else 0 < |s|)
    ensures |r| == n
  {
    seq(n, i requires 0 <= i < n => if d == 1 then s[i] else s[0])
  }

  /** Tassign of the source elements to the `n` places at `p` */
  method AssignItems<T>(a: array<T>, p: nat, s: seq<T>, n: nat, d: nat)
    requires p + n <= a.Length && d <= 1 && (if d == 1 then n <= |s| else 0 < |s|)
    modifies a
    ensures a[..] == Splice(old(a[..]), p, n, Items(s, n, d))
  {
    ghost var t := Items(s, n, d);
    var i, k := 0, 0;
    while i < n
      invariant 0 <= i <= n && k == if d == 1 then i else 0
      invariant forall j :: 0 <= j < a.Length ==> a[j] == if p <= j < p + i then t[j - p] else old(a[j])
    {
      a[p + i] := s[k];
      i, k := i + 1, k + d;
    }
  }

  lemma Spliced<T>(m0: seq<T>, m: seq<T>, p: nat, items: seq<T>, head: seq<T>, tail: seq<T>)
    requires |head| == p && p + |items| + |tail| <= |m0| && m == Splice(m0, p, |items|, items)
    requires m0[..p] == head && m0[p + |items|..p + |items| + |tail|] == tail
    ensures m[..p + |items| + |tail|] == head + items + tail
  {
    assert m0[p + |items|..][..|tail|] == tail;
  }

  /** The items come between what stands before them and what has made room for them. */
  method AssignBetween<T>(a: array<T>, p: nat, s: seq<T>, n: nat, d: nat, ghost head: seq<T>, ghost tail: seq<T>)
    requires |head| == p && p + n + |tail| <= a.Length && d <= 1 && (if d == 1 then n <= |s| else 0 < |s|)
    requires a[..p] == head && a[p + n..p + n + |tail|] == tail
    modifies a
    ensures a[..p + n + |tail|] == head + Items(s, n, d) + tail
  {
    ghost var before := a[..];
    AssignItems(a, p, s, n, d);
    Spliced(before, a[..], p, Items(s, n, d), head, tail);
  }

  /** The loop of _insert: the `m` elements at `p` move up by `n`, last one first. */
  method ShiftUp<T>(a: array<T>, p: nat, n: nat, m: nat, ghost head: seq<T>, ghost tail: seq<T>)
    requires p + n + m <= a.Length && a[..p] == head && a[p..p + m] == tail
    modifies a
    ensures a[..p] == head && a[p + n..p + n + m] == tail
  {
    ghost var before := a[..];
    var i := m;
    while 0 < i
      invariant 0 <= i <= m
      invariant forall k :: 0 <= k < p + i ==> a[k] == before[k]
      invariant forall k :: p + n + i <= k < p + n + m ==> a[k] == before[k - n]
    {
      i := i - 1;
      a[p + n + i] := a[p + i];
    }
  }

  /** The loop of _remove: the `m` elements at `p + n` move down to `p`. */
  method ShiftDown<T>(a: array<T>, p: nat, n: nat, m: nat, ghost head: seq<T>, ghost tail: seq<T>)
    requires p + n + m <= a.Length && a[..p] == head && a[p + n..p + n + m] == tail
    modifies a
    ensures a[..p + m] == head + tail
  {
    ghost var before := a[..];
    var i := 0;
    while i < m
      invariant 0 <= i <= m
      invariant forall k :: 0 <= k < p ==> a[k] == before[k]
      invariant forall k :: p <= k < p + i ==> a[k] == before[k + n]
      invariant forall k :: p + i <= k < p + n + m ==> a[k] == before[k]
    {
      a[p + i] := a[p + i + n];
      i := i + 1;
    }
    assert a[..p] == head && a[p..p + m] == tail;
    assert a[..p + m] == a[..p] + a[p..p + m];
  }

  class Array<T(0)> {
    var ptr: array?<T>
    var len: nat
    var res: nat

    ghost predicate Valid()
      reads this
    {
      && (ptr == null ==> len == 0)
      && (ptr != null ==> ptr.Length == res && len <= res)
      && len < NPOS
    }

    ghost function Contents(): (s: seq<T>)
      reads this, ptr
      requires Valid()
      ensures |s| == len
    {
      if ptr == null then [] else ptr[..len]
    }

    lemma Part(c: seq<T>, p: nat, q: nat, m: nat)
      requires Valid() && ptr != null && p <= len && q + m == len && c == Contents()
      ensures ptr[..p] == c[..p] && ptr[q..q + m] == c[q..]
    {
    }

    lemma HeadAndTail(c: seq<T>, p: nat, m: nat)
      requires Valid() && ptr != null && p + m == |c| <= len && Contents()[..|c|] == c
      ensures ptr[..p] == c[..p] && ptr[p..p + m] == c[p..]
    {
    }

    ghost function Repr(): set<object>
      reads this
    {
      if ptr == null then {this} else {this, ptr}
    }

    constructor ()
      ensures Valid() && Contents() == [] && ptr == null
    {
      ptr, len, res := null, 0, 0;
    }

    /** _Grow with no fill element: elements up to the shorter of the two lengths are kept. */
    method Grow(n: nat, trim: bool)
      requires Valid() && n < NPOS
      modifies Repr()
      ensures Valid() && fresh(Repr() - old(Repr())) && len == n && (n > 0 ==> ptr != null)
      ensures Contents()[..Min(n, old(len))] == old(Contents())[..Min(n, old(len))]
    {
      var os := if ptr == null then 0 else res;
      if n == 0 {
        if trim {
          ptr, len, res := null, 0, 0;
        }
      } else if n == os || (n < os && !trim) {
      } else {
        var r := if ptr == null && n < res then res else n;
        var np := new T[r];
        var m := if n < len then n else len;
        if ptr != null {
          AssignItems(np, 0, ptr[..len], m, 1);
          assert np[..m] == ptr[..m];
        }
        ptr, res := np, r;
      }
      len := n;
    }

    /** `ok` is false where the program aborts. */
    method Append(s: seq<T>, n: nat, d: nat) returns (ok: bool)
      requires Valid() && d <= 1 && (if d == 1 then n <= |s| else 0 < |s|)
      modifies Repr()
      ensures Valid() && fresh(Repr() - old(Repr())) && ok == (old(len) + n < NPOS)
      ensures Contents() == if ok then old(Contents()) + Items(s, n, d) else old(Contents())
    {
      if NPOS - len <= n { return false; }
      ghost var c := Contents();
      var i := len;
      Grow(n + i, false);
      assert c[..i] == c;
      if ptr != null {
        assert ptr[..i] == c;
        AssignItems(ptr, i, s, n, d);
        assert ptr[..len] == c + Items(s, n, d);
      }
      return true;
    }

    method Assign(s: seq<T>, n: nat, d: nat)
      requires Valid() && n < NPOS && d <= 1 && (if d == 1 then n <= |s| else 0 < |s|)
      modifies Repr()
      ensures Valid() && fresh(Repr() - old(Repr())) && Contents() == Items(s, n, d)
    {
      Grow(n, true);
      if ptr != null {
        AssignItems(ptr, 0, s, n, d);
      }
    }

    /** Lines 354 to 371 */
    method InsertSome(p: nat, s: seq<T>, n: nat, d: nat)
      requires Valid() && d <= 1 && (if d == 1 then n <= |s| else 0 < |s|)
      requires 0 < n && p <= len && len + n < NPOS
      modifies Repr()
      ensures Valid() && fresh(Repr() - old(Repr())) && Contents() == Splice(old(Contents()), p, 0, Items(s, n, d))
    {
      ghost var c := Contents();
      ghost var head, tail := c[..p], c[p..];
      var m := len - p;
      Grow(n + len, false);
      assert c[..|c|] == c;
      HeadAndTail(c, p, m);
      ShiftUp(ptr, p, n, m, head, tail);
      AssignBetween(ptr, p, s, n, d, head, tail);
      assert Splice(c, p, 0, Items(s, n, d)) == head + Items(s, n, d) + tail;
    }

    method Insert(p: nat, s: seq<T>, n: nat, d: nat) returns (ok: bool)
      requires Valid() && d <= 1 && (if d == 1 then n <= |s| else 0 < |s|)
      modifies Repr()
      ensures Valid() && fresh(Repr() - old(Repr())) && ok == (p <= old(len) && old(len) + n < NPOS)
      ensures Contents() == if ok then Splice(old(Contents()), p, 0, Items(s, n, d)) else old(Contents())
    {
      if len < p || NPOS - len <= n { return false; }
      ghost var c := Contents();
      if 0 < n {
        InsertSome(p, s, n, d);
      } else {
        assert Splice(c, p, 0, Items(s, n, d)) == c;
      }
      return true;
    }

    method Shorten(n: nat)
      requires Valid() && n <= len && ptr != null
      modifies Repr()
      ensures Valid() && fresh(Repr() - old(Repr())) && Contents() == old(ptr[..n])
    {
      ghost var c := Contents();
      assert c[..n] == ptr[..n];
      Grow(n, false);
      assert Contents()[..n] == Contents();
    }

    /** Lines 384 to 387 */
    method RemoveSome(p: nat, n: nat)
      requires Valid() && 0 < n && p + n <= len
      modifies Repr()
      ensures Valid() && fresh(Repr() - old(Repr())) && Contents() == Splice(old(Contents()), p, n, [])
    {
      ghost var c := Contents();
      ghost var head, tail := c[..p], c[p + n..];
      var m := len - p - n;
      Part(c, p, p + n, m);
      ShiftDown(ptr, p, n, m, head, tail);
      Shorten(p + m);
      assert Splice(c, p, n, []) == head + tail;
    }

    method Remove(p: nat, n: nat) returns (ok: bool)
      requires Valid()
      modifies Repr()
      ensures Valid() && fresh(Repr() - old(Repr())) && ok == (p <= old(len))
      ensures Contents() == if ok then Splice(old(Contents()), p, Min(n, old(len) - p), []) else old(Contents())
    {
      if len < p { return false; }
      var k := Min(n, len - p);
      ghost var c := Contents();
      if 0 < k {
        RemoveSome(p, k);
      } else {
        assert Splice(c, p, k, []) == c;
      }
      return true;
    }

    /** What lies behind the part goes first, then what lies before it. */
    method Narrow(p: nat, k: nat)
      requires Valid() && p + k <= len
      modifies Repr()
      ensures Valid() && fresh(Repr() - old(Repr())) && Contents() == old(Contents())[p..p + k]
    {
      ghost var c := Contents();
      var ok := Remove(p + k, NPOS);
      assert Contents() == c[..p + k];
      ok := Remove(0, p);
      assert Contents() == c[..p + k][p..];
    }

    method CopyTo(x: Array<T>, p: nat, k: nat)
      requires Valid() && x.Valid() && x.Repr() !! Repr() && p + k <= len
      modifies x.Repr()
      ensures x.Valid() && fresh(x.Repr() - old(x.Repr())) && x.Contents() == Contents()[p..p + k]
    {
      var t := if ptr == null then [] else ptr[p..p + k];
      assert t == Contents()[p..p + k];
      x.Assign(t, k, 1);
      assert Items(t, k, 1) == t;
    }

    /** _subarray; None stands for "this and x are the same array". */
    method Subarray(x: Array?<T>, p: nat, n: nat) returns (ok: bool)
      requires Valid() && (x != null ==> x.Valid() && x.Repr() !! Repr())
      modifies if x == null then Repr() else x.Repr()
      ensures ok == (p <= old(len)) && (!ok ==> Valid() && Contents() == old(Contents()))
      ensures x == null ==> Valid() && fresh(Repr() - old(Repr()))
      ensures x == null && ok ==> Contents() == old(Contents())[p..p + Min(n, old(len) - p)]
      ensures x != null ==> x.Valid() && fresh(x.Repr() - old(x.Repr()))
      ensures x != null && ok ==> x.Contents() == Contents()[p..p + Min(n, len - p)]
    {
      if len < p { return false; }
      var k := Min(n, len - p);
      if x == null {
        Narrow(p, k);
      } else {
        CopyTo(x, p, k);
      }
      return true;
    }

    method PutAt(i: nat, x: T) returns (ok: bool)
      requires Valid()
      modifies Repr()
      ensures Valid() && fresh(Repr() - old(Repr()))
      ensures i < old(len) ==> ptr == old(ptr)
      ensures ok == (i < old(len) || (i == old(len) && i + 1 < NPOS))
      ensures Contents() == if !ok then old(Contents())
                            else if i == old(len) then old(Contents()) + [x] else old(Contents())[i := x]
    {
      if len < i { return false; }
      if len == i {
        ok := Append([x], 1, 1);
        assert Items([x], 1, 1) == [x];
      } else {
        ptr[i] := x;
        ok := true;
      }
    }
  }
}
