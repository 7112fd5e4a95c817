/** The order check on instruction variants of debug/mktables.c. */
module AsmOrder {
  import opened Commons

  /** One line of instr.ord: `small` must not come after `big`. */
  datatype Pair = Pair(small: nat, big: nat)

  ghost predicate InRange(ords: seq<Pair>, n: nat) {
    forall i :: 0 <= i < |ords| ==> ords[i].small < n && ords[i].big < n
  }

  /** From key `a` one gets up to key `b` in `steps` lines of instr.ord. */
  ghost predicate Climbs(ords: seq<Pair>, a: nat, b: nat, steps: nat)
    decreases steps
  {
    if steps == 0 then a == b
    else exists i :: 0 <= i < |ords| && ords[i].big == b && Climbs(ords, a, ords[i].small, steps - 1)
  }

  /** Key `a` is at or below key `b`. */
  ghost predicate AtOrBelow(ords: seq<Pair>, a: nat, b: nat) {
    exists steps: nat :: Climbs(ords, a, b, steps)
  }

  ghost predicate Acyclic(ords: seq<Pair>) {
    forall a: nat, steps: nat :: Climbs(ords, a, a, steps) ==> steps == 0
  }

  lemma {:induction false} ClimbOn(ords: seq<Pair>, a: nat, b: nat, c: nat, m: nat, k: nat)
    requires Climbs(ords, a, b, m) && Climbs(ords, b, c, k)
    ensures Climbs(ords, a, c, m + k)
    decreases k
  {
    if k > 0 {
      var i :| 0 <= i < |ords| && ords[i].big == c && Climbs(ords, b, ords[i].small, k - 1);
      ClimbOn(ords, a, b, ords[i].small, m, k - 1);
    }
  }

  /** The keys at or below `b` are `b` and those at or below what instr.ord names below `b`. */
  lemma Below(ords: seq<Pair>, a: nat, b: nat)
    ensures AtOrBelow(ords, a, b) <==>
      a == b || exists i :: 0 <= i < |ords| && ords[i].big == b && AtOrBelow(ords, a, ords[i].small)
  {
    if AtOrBelow(ords, a, b) && a != b {
      var steps: nat :| Climbs(ords, a, b, steps);
      var i :| 0 <= i < |ords| && ords[i].big == b && Climbs(ords, a, ords[i].small, steps - 1);
    }
    if a == b { assert Climbs(ords, a, b, 0); }
    if i :| 0 <= i < |ords| && ords[i].big == b && AtOrBelow(ords, a, ords[i].small) {
      var steps: nat :| Climbs(ords, a, ords[i].small, steps);
      assert Climbs(ords, a, b, steps + 1);
    }
  }

  /** The keys from which the recursion has come down to `k`. */
  ghost predicate Above(ords: seq<Pair>, path: set<int>, k: nat, n: nat) {
    forall p :: p in path ==> 0 <= p < n && exists steps: nat :: 0 < steps && Climbs(ords, k, p, steps)
  }

  lemma PathGrows(ords: seq<Pair>, path: set<int>, k: nat, n: nat, i: nat)
    requires Acyclic(ords) && Above(ords, path, k, n) && k < n && i < |ords| && ords[i].big == k
    ensures k !in path && Above(ords, path + {k}, ords[i].small, n)
  {
    var small := ords[i].small;
    assert Climbs(ords, small, small, 0) && Climbs(ords, small, k, 1);
    forall p | p in path ensures exists steps: nat :: 0 < steps && Climbs(ords, small, p, steps) {
      var steps: nat :| 0 < steps && Climbs(ords, k, p, steps);
      ClimbOn(ords, small, k, p, 1, steps);
    }
  }

  /** A path of keys below `n` that misses one is shorter than `n`. */
  lemma PathBounded(path: set<int>, k: nat, n: nat)
    requires k < n && k !in path && forall p :: p in path ==> 0 <= p < n
    ensures |path| < n
  {
    assert path + {k} <= UpTo(n);
    PartOfUpTo(path + {k}, n);
  }

  /** Marked are the keys that were, and those at or below `k`. */
  ghost predicate Marks(ords: seq<Pair>, before: seq<bool>, after: seq<bool>, k: nat) {
    |after| == |before| && forall x :: 0 <= x < |after| ==> (after[x] <==> before[x] || AtOrBelow(ords, x, k))
  }

  ghost predicate BelowOneOf(ords: seq<Pair>, x: nat, k: nat, m: nat)
    requires m <= |ords|
  {
    exists i :: 0 <= i < m && ords[i].big == k && AtOrBelow(ords, x, ords[i].small)
  }

  /** Marked are the keys that were, `k`, and those at or below what the first `m` lines name below `k`. */
  ghost predicate MarksPart(ords: seq<Pair>, before: seq<bool>, after: seq<bool>, k: nat, m: nat)
    requires m <= |ords|
  {
    && |after| == |before|
    && forall x :: 0 <= x < |after| ==>
         (after[x] <==> before[x] || x == k || BelowOneOf(ords, x, k, m))
  }

  lemma PartIsAll(ords: seq<Pair>, before: seq<bool>, after: seq<bool>, k: nat)
    requires MarksPart(ords, before, after, k, |ords|)
    ensures Marks(ords, before, after, k)
  {
    forall x | 0 <= x < |after| ensures after[x] <==> before[x] || AtOrBelow(ords, x, k) {
      Below(ords, x, k);
    }
  }

  lemma PartNext(ords: seq<Pair>, before: seq<bool>, now: seq<bool>, after: seq<bool>, k: nat, m: nat)
    requires m < |ords| && ords[m].big == k
    requires MarksPart(ords, before, now, k, m) && Marks(ords, now, after, ords[m].small)
    ensures MarksPart(ords, before, after, k, m + 1)
  {
  }

  /** marksmall: on an acyclic order the recursion ends and marks exactly what lies at or below `k`. */
  method MarkSmall(ords: seq<Pair>, ordsmall: array<bool>, k: nat, ghost path: set<int>)
    requires Acyclic(ords) && InRange(ords, ordsmall.Length) && k < ordsmall.Length
    requires Above(ords, path, k, ordsmall.Length)
    modifies ordsmall
    ensures Marks(ords, old(ordsmall[..]), ordsmall[..], k)
    decreases ordsmall.Length - |path|
  {
    assert k !in path;
    PathBounded(path, k, ordsmall.Length);
    ghost var before := ordsmall[..];
    ordsmall[k] := true;
    var i := 0;
    while i < |ords|
      invariant 0 <= i <= |ords| && MarksPart(ords, before, ordsmall[..], k, i)
    {
      if ords[i].big == k {
        PathGrows(ords, path, k, ordsmall.Length, i);
        ghost var now := ordsmall[..];
        MarkSmall(ords, ordsmall, ords[i].small, path + {k});
        PartNext(ords, before, now, ordsmall[..], k, i);
      }
      i := i + 1;
    }
    PartIsAll(ords, before, ordsmall[..], k);
  }

  /** No variant's key lies at or below that of an earlier variant. */
  ghost predicate InOrder(ords: seq<Pair>, keys: seq<nat>) {
    forall i, j :: 0 <= i < j < |keys| ==> !AtOrBelow(ords, keys[j], keys[i])
  }

  /** Marked are the keys at or below one of the first `m`. */
  ghost predicate MarkedBy(ords: seq<Pair>, small: seq<bool>, keys: seq<nat>, m: nat)
    requires m <= |keys|
  {
    forall x :: 0 <= x < |small| ==> (small[x] <==> exists i :: 0 <= i < m && AtOrBelow(ords, x, keys[i]))
  }

  lemma MarkedByNext(ords: seq<Pair>, before: seq<bool>, after: seq<bool>, keys: seq<nat>, m: nat)
    requires m < |keys| && MarkedBy(ords, before, keys, m) && Marks(ords, before, after, keys[m])
    ensures MarkedBy(ords, after, keys, m + 1)
  {
  }

  /** The keys of a line's variants pass exactly when they are in order: lines 592 and 688 to 690. */
  method CheckOrder(ords: seq<Pair>, ordsmall: array<bool>, keys: seq<nat>) returns (ok: bool)
    requires Acyclic(ords) && InRange(ords, ordsmall.Length)
    requires forall i :: 0 <= i < |keys| ==> keys[i] < ordsmall.Length
    modifies ordsmall
    ensures ok <==> InOrder(ords, keys)
  {
    var i := 0;
    while i < ordsmall.Length
      invariant 0 <= i <= ordsmall.Length && forall x :: 0 <= x < i ==> !ordsmall[x]
    {
      ordsmall[i] := false;
      i := i + 1;
    }
    var j := 0;
    while j < |keys|
      invariant 0 <= j <= |keys| && MarkedBy(ords, ordsmall[..], keys, j) && InOrder(ords, keys[..j])
    {
      if ordsmall[keys[j]] {
        return false;
      }
      ghost var before := ordsmall[..];
      MarkSmall(ords, ordsmall, keys[j], {});
      MarkedByNext(ords, before, ordsmall[..], keys, j);
      j := j + 1;
    }
    assert keys[..j] == keys;
    return true;
  }
}
