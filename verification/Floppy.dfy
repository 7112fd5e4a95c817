/** Sector interleave and skew of format/floppy.c, and the cylinder loop of format/uformat.c. */
module Floppy {
  import opened Commons

  /** Every sector number 1..n stands somewhere exactly once. */
  ghost predicate IsLayout(layout: seq<int>, n: nat) {
    && |layout| == n
    && (forall p :: 0 <= p < n ==> 1 <= layout[p] <= n)
    && (forall p, q :: 0 <= p < q < n ==> layout[p] != layout[q])
  }

  /** The round in which a walk in steps of `f` passes position `p`: p modulo f. */
  function Round(p: nat, f: nat): (r: nat)
    requires 1 <= f
    ensures r < f && r <= p
  {
    if p < f then p else Round(p - f, f)
  }

  lemma Multiples(f: nat, a: int, b: int)
    requires a <= b
    ensures f * a <= f * b
  {
  }

  lemma Remainder(x: int, f: nat, q: int, r: nat)
    requires 0 < f && x == f * q + r && r < f
    ensures x % f == r
  {
    var q', r' := x / f, x % f;
    assert x == f * q' + r';
    if q < q' {
      Multiples(f, q + 1, q');
    } else if q' < q {
      Multiples(f, q' + 1, q);
    }
  }

  lemma WholeTurn(x: int, n: nat)
    requires 0 < n
    ensures (x + n) % n == x % n
  {
    var q, r := x / n, x % n;
    assert x + n == n * (q + 1) + r;
    Remainder(x + n, n, q + 1, r);
  }

  lemma {:induction false} RoundIsRemainder(p: nat, f: nat)
    requires 1 <= f
    ensures Round(p, f) == p % f
  {
    if p >= f {
      RoundIsRemainder(p - f, f);
      WholeTurn(p - f, f);
    }
  }

  /** Position `p` comes before position `q` when a track is walked in steps of `f`, round after round. */
  predicate Before(p: nat, q: nat, f: nat)
    requires 1 <= f
  {
    Round(p, f) < Round(q, f) || (Round(p, f) == Round(q, f) && p < q)
  }

  /** The sectors are numbered in the order of the walk; together with IsLayout this leaves only one layout. */
  ghost predicate IsInterleaved(layout: seq<int>, f: nat)
    requires 1 <= f
  {
    forall p, q :: 0 <= p < |layout| && 0 <= q < |layout| ==> (layout[p] < layout[q] <==> Before(p, q, f))
  }

  /** Two places of one round are at least one step apart. */
  lemma {:induction false} RoundsApart(p: nat, q: nat, f: nat)
    requires 1 <= f && p < q && Round(p, f) == Round(q, f)
    ensures p + f <= q
    decreases q
  {
    if f <= p { RoundsApart(p - f, q - f, f); }
  }

  /** The places passed when the walk in steps of `f` has come to `idx` in the round that began at `start`. */
  ghost function Passed(n: nat, idx: nat, start: nat, f: nat): set<int>
    requires 1 <= f
  {
    set p | p in UpTo(n) && (Round(p, f) < start || (Round(p, f) == start && p < idx))
  }

  /** One step of the walk, with lines 76 to 81 where a round is complete. */
  lemma PassedStep(n: nat, idx: nat, start: nat, f: nat)
    requires 1 <= f && idx < n && Round(idx, f) == start
    ensures idx !in Passed(n, idx, start, f)
    ensures forall p :: p in Passed(n, idx, start, f) ==> 0 <= p && Before(p, idx, f) && !Before(idx, p, f)
    ensures Round(idx + f, f) == start
  {
  }

  /** The new place is the only one that is passed. */
  lemma PassedNext(n: nat, idx: nat, start: nat, f: nat)
    requires 1 <= f && idx < n && Round(idx, f) == start
    ensures idx + f < n ==> Passed(n, idx + f, start, f) == Passed(n, idx, start, f) + {idx}
    ensures idx + f >= n ==> Passed(n, start + 1, start + 1, f) == Passed(n, idx, start, f) + {idx}
  {
    forall p | p in UpTo(n) && Round(p, f) == start && idx < p ensures idx + f <= p {
      RoundsApart(idx, p, f);
    }
  }

  lemma AllPassed(n: nat, start: nat, f: nat)
    requires 1 <= f && (f <= start || n <= start)
    ensures Passed(n, start, start, f) == UpTo(n)
  {
  }

  /** When not every place has been passed, a new round begins at one that has not. */
  lemma PlaceLeft(n: nat, start: nat, f: nat)
    requires 1 <= f && |Passed(n, start, start, f)| < n
    ensures start < n && Round(start, f) == start
  {
    if f <= start || n <= start { AllPassed(n, start, f); }
  }

  /** The places passed carry the numbers below `index`, in the order of the walk. */
  ghost predicate Numbered(m: seq<int>, passed: set<int>, index: nat, f: nat)
    requires 1 <= f
  {
    && (forall p :: p in passed ==> 0 <= p < |m| && 1 <= m[p] < index)
    && (forall p, q :: p in passed && q in passed ==> (m[p] < m[q] <==> Before(p, q, f)))
    && (forall p, q :: p in passed && q in passed && p != q ==> m[p] != m[q])
  }

  lemma NumberNext(m: seq<int>, passed: set<int>, index: nat, f: nat, idx: nat)
    requires 1 <= f && 1 <= index && Numbered(m, passed, index, f) && idx < |m| && idx !in passed
    requires forall p :: p in passed ==> 0 <= p && Before(p, idx, f) && !Before(idx, p, f)
    ensures Numbered(m[idx := index], passed + {idx}, index + 1, f)
  {
  }

  lemma AllNumbered(m: seq<int>, n: nat, f: nat)
    requires 1 <= f && |m| == n && Numbered(m, UpTo(n), n + 1, f)
    ensures IsLayout(m, n) && IsInterleaved(m, f)
  {
    assert forall p :: 0 <= p < n ==> p in UpTo(n);
  }

  /** Where the walk stands before it writes number `index`. */
  ghost predicate Walk(n: nat, idx: nat, start: nat, f: nat, passed: set<int>, index: nat)
    requires 1 <= f
  {
    && 1 <= index <= n + 1 && passed == Passed(n, idx, start, f) && |passed| == index - 1
    && (index <= n ==> idx < n && Round(idx, f) == start)
  }

  lemma WalkStep(n: nat, idx: nat, start: nat, f: nat, passed: set<int>, index: nat, i: nat, s: nat)
    requires 1 <= f && index <= n && Walk(n, idx, start, f, passed, index)
    requires (i, s) == if idx + f < n then (idx + f, start) else (start + 1, start + 1)
    ensures idx < n && idx !in passed && Walk(n, i, s, f, passed + {idx}, index + 1)
  {
    PassedStep(n, idx, start, f);
    PassedNext(n, idx, start, f);
    if idx + f >= n && index < n {
      PlaceLeft(n, start + 1, f);
    }
  }

  lemma WalkEnds(n: nat, idx: nat, start: nat, f: nat, passed: set<int>)
    requires 1 <= f && Walk(n, idx, start, f, passed, n + 1)
    ensures passed == UpTo(n)
  {
    PartOfUpTo(passed, n);
  }

  datatype State = State(layout: seq<int>, idx: nat, start: nat, passed: set<int>)

  /** One turn of the loop of lines 71 to 84, which writes number `k`. */
  ghost function Step(s: State, f: nat, k: nat): (r: State)
    requires s.idx < |s.layout|
    ensures |r.layout| == |s.layout|
  {
    if s.idx + f >= |s.layout| then State(s.layout[s.idx := k], s.start + 1, s.start + 1, s.passed + {s.idx})
    else State(s.layout[s.idx := k], s.idx + f, s.start, s.passed + {s.idx})
  }

  /** Where the loop stands before it writes number `k`. */
  ghost predicate Standing(s: State, f: nat, k: nat)
    requires 1 <= f
  {
    && Walk(|s.layout|, s.idx, s.start, f, s.passed, k)
    && Numbered(s.layout, s.passed, k, f)
  }

  lemma WalksOn(s: State, f: nat, k: nat, n: nat, r: State)
    requires 1 <= f && k <= n == |s.layout| && Walk(n, s.idx, s.start, f, s.passed, k) && s.idx < n
    requires r == Step(s, f, k)
    ensures s.idx !in s.passed && Walk(n, r.idx, r.start, f, r.passed, k + 1)
    ensures forall p :: p in s.passed ==> 0 <= p && Before(p, s.idx, f) && !Before(s.idx, p, f)
  {
    PassedStep(n, s.idx, s.start, f);
    WalkStep(n, s.idx, s.start, f, s.passed, k, r.idx, r.start);
  }

  lemma StandingStep(s: State, f: nat, k: nat)
    requires 1 <= f && k <= |s.layout| && Standing(s, f, k)
    ensures s.idx < |s.layout| && Standing(Step(s, f, k), f, k + 1)
  {
    WalksOn(s, f, k, |s.layout|, Step(s, f, k));
    NumberNext(s.layout, s.passed, k, f, s.idx);
  }

  lemma StandingStart(s: State, f: nat)
    requires 1 <= f && 0 < |s.layout| && s.idx == 0 && s.start == 0 && s.passed == {}
    ensures Standing(s, f, 1)
  {
  }

  /** After the last number every place has been passed, so the map is an interleaved layout. */
  lemma StandingEnd(s: State, f: nat)
    requires 1 <= f && Standing(s, f, |s.layout| + 1)
    ensures IsLayout(s.layout, |s.layout|) && IsInterleaved(s.layout, f)
  {
    WalkEnds(|s.layout|, s.idx, s.start, f, s.passed);
    AllNumbered(s.layout, |s.layout|, f);
  }

  method Number(layout: array<int>, ghost n: nat, i: nat, index: nat)
    requires i < n <= layout.Length
    modifies layout
    ensures layout[..n] == old(layout[..n])[i := index] && layout[n..] == old(layout[n..])
  {
    layout[i] := index;
  }

  /** Lines 73 to 83: number `index` is written, and the walk goes on. */
  method OneTurn(layout: array<int>, n: nat, f: nat, index: nat, interleaveIndex: nat, startingSector: nat, ghost s: State)
    returns (next: nat, start: nat, ghost r: State)
    requires 1 <= f && 1 <= index <= n == |s.layout| <= layout.Length && Standing(s, f, index)
    requires interleaveIndex == s.idx && startingSector == s.start && layout[..n] == s.layout
    modifies layout
    ensures |r.layout| == n && Standing(r, f, index + 1)
    ensures next == r.idx && start == r.start && layout[..n] == r.layout && layout[n..] == old(layout[n..])
  {
    StandingStep(s, f, index);
    r := Step(s, f, index);
    Number(layout, n, interleaveIndex, index);
    next, start := interleaveIndex + f, startingSector;
    if next >= n {
      start := start + 1;
      next := start;
    }
  }

  method ComputeInterleave(layout: array<int>, n: nat, f: nat)
    requires 1 <= n <= layout.Length && 1 <= f
    modifies layout
    ensures IsLayout(layout[..n], n) && IsInterleaved(layout[..n], f)
    ensures layout[n..] == old(layout[n..])
  {
    var index, startingSector, interleaveIndex := 1, 0, 0;
    ghost var s := State(layout[..n], 0, 0, {});
    StandingStart(s, f);
    while index <= n
      invariant 1 <= index <= n + 1 && |s.layout| == n
      invariant Standing(s, f, index)
      invariant interleaveIndex == s.idx && startingSector == s.start
      invariant layout[..n] == s.layout && layout[n..] == old(layout[n..])
    {
      interleaveIndex, startingSector, s := OneTurn(layout, n, f, index, interleaveIndex, startingSector, s);
      index := index + 1;
    }
    StandingEnd(s, f);
  }

  /** The last number goes to the front. */
  function TurnedOnce(s: seq<int>): (r: seq<int>)
    requires 0 < |s|
    ensures |r| == |s|
  {
    [s[|s| - 1]] + s[..|s| - 1]
  }

  function Turned(s: seq<int>, k: nat): (r: seq<int>)
    requires 0 < |s|
    ensures |r| == |s|
  {
    if k == 0 then s else TurnedOnce(Turned(s, k - 1))
  }

  lemma {:induction false} TurnedTwice(s: seq<int>, j: nat, k: nat)
    requires 0 < |s|
    ensures Turned(Turned(s, j), k) == Turned(s, j + k)
  {
    if k > 0 { TurnedTwice(s, j, k - 1); }
  }

  /** Turning by `k` is the rotation by `k` modulo the track length. */
  lemma {:induction false} TurnedIsRotation(s: seq<int>, k: nat, i: nat)
    requires i < |s|
    ensures Turned(s, k)[i] == s[(i - k) % |s|]
    decreases k
  {
    if k > 0 {
      var j := if i == 0 then |s| - 1 else i - 1;
      TurnedIsRotation(s, k - 1, j);
      if i == 0 { WholeTurn(0 - k, |s|); }
    }
  }

  lemma {:induction false} TurnedIsLayout(s: seq<int>, k: nat)
    requires 0 < |s| && IsLayout(s, |s|)
    ensures IsLayout(Turned(s, k), |s|)
  {
    if k > 0 { TurnedIsLayout(s, k - 1); }
  }

  /** Lines 118 to 130 */
  method TurnOnce(layout: array<int>, n: nat)
    requires 2 <= n <= layout.Length
    modifies layout
    ensures layout[..n] == TurnedOnce(old(layout[..n])) && layout[n..] == old(layout[n..])
  {
    ghost var before := layout[..];
    var carry := layout[n - 1];
    var index := n - 1;
    while index > 0
      invariant 0 <= index <= n - 1
      invariant forall i :: index < i < n ==> layout[i] == before[i - 1]
      invariant forall i :: 0 <= i <= index || n <= i < layout.Length ==> layout[i] == before[i]
    {
      layout[index] := layout[index - 1];
      index := index - 1;
    }
    layout[0] := carry;
  }

  const HD := 8

  /** Standard formats have no skew; the others turn the map by three places. */
  method ComputeSkew(layout: array<int>, n: nat, mediaType: int)
    requires 2 <= n <= layout.Length
    modifies layout
    ensures layout[..n] == Turned(old(layout[..n]), if mediaType < HD then 0 else 3)
    ensures layout[n..] == old(layout[n..])
  {
    if mediaType < HD { return; }
    var skewCounter := 0;
    while skewCounter < 3
      invariant 0 <= skewCounter <= 3
      invariant layout[..n] == Turned(old(layout[..n]), skewCounter) && layout[n..] == old(layout[n..])
    {
      TurnOnce(layout, n);
      skewCounter := skewCounter + 1;
    }
  }

  /** The interleave factor of lines 63 to 66. */
  function Factor(mediaType: int): (f: nat)
    ensures 1 <= f <= 3
  {
    if mediaType == HD + 1 then 2 else if mediaType < HD then 1 else 3
  }

  /** The map of cylinder `k` of a run that began with `first`. */
  function Skewed(first: seq<int>, mediaType: int, k: nat): (r: seq<int>)
    requires 0 < |first|
    ensures |r| == |first|
  {
    if k == 0 then first else Turned(Skewed(first, mediaType, k - 1), if mediaType < HD then 0 else 3)
  }

  lemma {:induction false} SkewedIsLayout(first: seq<int>, mediaType: int, k: nat)
    requires 0 < |first| && IsLayout(first, |first|)
    ensures IsLayout(Skewed(first, mediaType, k), |first|)
  {
    if k > 0 {
      SkewedIsLayout(first, mediaType, k - 1);
      TurnedIsLayout(Skewed(first, mediaType, k - 1), if mediaType < HD then 0 else 3);
    }
  }

  /** In the extra large formats cylinder `k` is turned by 3k places. */
  lemma {:induction false} SkewedIsTurned(first: seq<int>, mediaType: int, k: nat)
    requires 0 < |first|
    ensures Skewed(first, mediaType, k) == if mediaType < HD then first else Turned(first, 3 * k)
  {
    if k > 0 {
      SkewedIsTurned(first, mediaType, k - 1);
      if mediaType < HD {
        assert Turned(first, 0) == first;
      } else {
        TurnedTwice(first, 3 * (k - 1), 3);
      }
    }
  }

  /**
   * A whole format run: `used` is the map each cylinder is formatted with. Every one is a layout, and the
   * first is interleaved.
   */
  method FormatRun(layout: array<int>, n: nat, mediaType: int, cylinders: nat) returns (used: seq<seq<int>>)
    requires 2 <= n <= layout.Length && 1 <= cylinders
    modifies layout
    ensures |used| == cylinders && IsLayout(used[0], n) && IsInterleaved(used[0], Factor(mediaType))
    ensures forall k :: 0 <= k < cylinders ==> used[k] == Skewed(used[0], mediaType, k) && IsLayout(used[k], n)
  {
    ComputeInterleave(layout, n, Factor(mediaType));
    ghost var first := layout[..n];
    used := [];
    var index := 0;
    while index < cylinders
      invariant 0 <= index <= cylinders && |used| == index && (index > 0 ==> used[0] == first)
      invariant layout[..n] == Skewed(first, mediaType, index)
      invariant forall k :: 0 <= k < index ==> used[k] == Skewed(first, mediaType, k)
    {
      used := used + [layout[..n]];
      ComputeSkew(layout, n, mediaType);
      index := index + 1;
    }
    forall k | 0 <= k < cylinders ensures IsLayout(used[k], n) {
      SkewedIsLayout(first, mediaType, k);
    }
  }
}
