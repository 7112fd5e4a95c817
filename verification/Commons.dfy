/** What several modules need: an optional value, and laws of multiplication, division and finite sets. */
module Commons {
  datatype Option<T> = None | Some(value: T)

  lemma Times(a: int, b: int, n: nat)
    ensures a <= b ==> a * n <= b * n
  {
  }

  lemma Quotient(x: nat, n: nat, q: nat)
    requires 0 < n && q * n <= x < (q + 1) * n
    ensures x / n == q
  {
    var p := x / n;
    assert p * n <= x < (p + 1) * n;
    Times(p + 1, q, n);
    Times(q + 1, p, n);
  }

  /** The numbers 0..n-1. */
  ghost function UpTo(n: nat): (s: set<int>)
    ensures |s| == n && forall p :: p in s <==> 0 <= p < n
  {
    if n == 0 then {} else UpTo(n - 1) + {n - 1}
  }

  /** A part of 0..n-1 has at most `n` elements, and with `n` of them it is the whole. */
  lemma PartOfUpTo(s: set<int>, n: nat)
    requires s <= UpTo(n)
    ensures |s| <= n && (|s| == n ==> s == UpTo(n))
  {
    assert UpTo(n) == s + (UpTo(n) - s);
  }
}
