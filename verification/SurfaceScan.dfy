/** The surface scan of format/uformat.c, lines 117 to 285, and what becomes of its list. */
module SurfaceScan {
  import opened Bytes
  import opened Fat
  import opened BcRead

  const CHUNK := 21

  function Pattern(): (p: seq<byte>) {
    seq(SECTOR, i => 0xf6)
  }

  /**
   * The disk under the scan: what reading sector `s` gives back after the pattern has been written to it, and
   * whether the transfer of `n` sectors from `s` on reports an error.
   */
  datatype Medium = Medium(stored: nat -> seq<byte>, fails: (nat, nat) -> bool)

  predicate Defective(m: Medium, s: nat) {
    m.stored(s) != Pattern()
  }

  /** First sector and size of the chunk at `s`: the last one is clipped, and overlaps when one sector is left. */
  function Clip(s: nat, max: nat): (c: (nat, nat))
    requires 2 <= max && 1 <= s < max
    ensures c.0 <= s && 2 <= c.1 <= CHUNK && c.0 + c.1 == if s + CHUNK > max then max else s + CHUNK
  {
    if s + CHUNK > max then (if max - s == 1 then (s - 1, 2) else (s, max - s)) else (s, CHUNK)
  }

  /** Whether the comparison at `i` fails; behind a clipped chunk the buffer still holds the pattern. */
  predicate Differs(m: Medium, c: (nat, nat), i: nat) {
    m.fails(c.0, c.1) || (i < c.1 && Defective(m, c.0 + i))
  }

  /** The sectors the first `n` comparisons of a chunk report. */
  function InChunk(m: Medium, c: (nat, nat), n: nat): (r: seq<int>) {
    if n == 0 then [] else
      var r := InChunk(m, c, n - 1);
      if Differs(m, c, n - 1) then r + [c.0 + n - 1] else r
  }

  /** The sectors reported from `s` on. */
  function Reported(m: Medium, s: nat, max: nat): (r: seq<int>)
    requires 2 <= max && 1 <= s
    decreases max - s
  {
    if s >= max then []
    else InChunk(m, Clip(s, max), CHUNK) + Reported(m, Clip(s, max).0 + CHUNK, max)
  }

  lemma {:induction false} InChunkAre(m: Medium, c: (nat, nat), n: nat)
    ensures forall x :: x in InChunk(m, c, n) <==> c.0 <= x < c.0 + n && Differs(m, c, x - c.0)
    ensures Increasing(InChunk(m, c, n))
    decreases n, c.0
  {
    if n > 0 {
      InChunkAre(m, c, n - 1);
      var r := InChunk(m, c, n - 1);
      assert forall i :: 0 <= i < |r| ==> r[i] in r;
      if Differs(m, c, n - 1) {
        assert forall x :: x in r + [c.0 + n - 1] <==> x in r || x == c.0 + n - 1;
      }
    }
  }

  /** The scan from `s` on makes the transfer `c`. */
  ghost predicate Transfer(s: nat, max: nat, c: (nat, nat))
    requires 2 <= max && 1 <= s
    decreases max - s
  {
    s < max && (c == Clip(s, max) || Transfer(Clip(s, max).0 + CHUNK, max, c))
  }

  /** Sector `x` belongs to a chunk of the scan that failed as a whole, or it was read there and is defective. */
  ghost predicate FoundBad(m: Medium, s: nat, max: nat, x: int)
    requires 2 <= max && 1 <= s
  {
    exists c: (nat, nat) :: Transfer(s, max, c) && c.0 <= x < c.0 + CHUNK && Differs(m, c, x - c.0)
  }

  /** Exactly the sectors found bad in a transfer of the scan are reported. */
  lemma {:induction false} ReportedAre(m: Medium, s: nat, max: nat, x: int)
    requires 2 <= max && 1 <= s
    ensures x in Reported(m, s, max) <==> FoundBad(m, s, max, x)
    decreases max - s
  {
    if s < max {
      var c := Clip(s, max);
      InChunkAre(m, c, CHUNK);
      ReportedAre(m, c.0 + CHUNK, max, x);
      if x in InChunk(m, c, CHUNK) { assert Transfer(s, max, c); }
      if d: (nat, nat) :| Transfer(c.0 + CHUNK, max, d) && d.0 <= x < d.0 + CHUNK && Differs(m, d, x - d.0) {
        assert Transfer(s, max, d);
      }
    }
  }

  /** Where the chunks lie: each sector from `s` on is in one, and none reaches below s - 1 or reads beyond the end. */
  lemma {:induction false} TransfersCover(s: nat, max: nat, x: nat) returns (c: (nat, nat))
    requires 2 <= max && 1 <= s <= x < max
    ensures Transfer(s, max, c) && c.0 <= x < c.0 + c.1
    decreases max - s
  {
    c := Clip(s, max);
    if c.0 + c.1 <= x { c := TransfersCover(c.0 + CHUNK, max, x); }
  }

  lemma {:induction false} TransfersLie(s: nat, max: nat, c: (nat, nat))
    requires 2 <= max && 1 <= s && Transfer(s, max, c)
    ensures s - 1 <= c.0 && 2 <= c.1 <= CHUNK && c.0 + c.1 <= max
    decreases max - s
  {
    if c != Clip(s, max) { TransfersLie(Clip(s, max).0 + CHUNK, max, c); }
  }

  /** Without failed transfers these are the defective sectors; for a volume of two sectors the scan begins with 0. */
  lemma FoundIsDefective(m: Medium, max: nat, x: int)
    requires 2 <= max && forall c: (nat, nat) :: Transfer(1, max, c) ==> !m.fails(c.0, c.1)
    ensures FoundBad(m, 1, max, x) ==> 0 <= x < max && Defective(m, x)
    ensures 1 <= x < max && Defective(m, x) ==> FoundBad(m, 1, max, x)
  {
    if FoundBad(m, 1, max, x) {
      var c: (nat, nat) :| Transfer(1, max, c) && c.0 <= x < c.0 + CHUNK && Differs(m, c, x - c.0);
      TransfersLie(1, max, c);
      var i := x - c.0;
      assert Differs(m, c, i) && c.0 + i == x;
    }
    if 1 <= x < max && Defective(m, x) {
      var c := TransfersCover(1, max, x);
      TransfersLie(1, max, c);
      assert Differs(m, c, x - c.0);
    }
  }

  /** A failed transfer has all 21 sectors of its chunk reported, also those behind a clipped end. */
  lemma FailedIsFound(m: Medium, max: nat, c: (nat, nat), x: int)
    requires 2 <= max && Transfer(1, max, c) && m.fails(c.0, c.1) && c.0 <= x < c.0 + CHUNK
    ensures x in Reported(m, 1, max)
  {
    ReportedAre(m, 1, max, x);
    assert Differs(m, c, x - c.0);
  }

  lemma {:induction false} ReportedFrom(m: Medium, s: nat, max: nat)
    requires 2 <= max && 1 <= s
    ensures forall x :: x in Reported(m, s, max) ==> s - 1 <= x
    decreases max - s
  {
    if s < max {
      var c := Clip(s, max);
      InChunkAre(m, c, CHUNK);
      ReportedFrom(m, c.0 + CHUNK, max);
    }
  }

  lemma JoinSorted(a: seq<int>, b: seq<int>, bound: int)
    requires Nondecreasing(a) && Nondecreasing(b)
    requires (forall x :: x in a ==> x <= bound) && forall x :: x in b ==> bound <= x
    ensures Nondecreasing(a + b)
  {
    forall i, j | 0 <= i < j < |a + b| ensures (a + b)[i] <= (a + b)[j] {
      if i < |a| <= j { assert a[i] in a && b[j - |a|] in b; }
    }
  }

  /** The report is in order. */
  lemma {:induction false} ReportedSorted(m: Medium, s: nat, max: nat)
    requires 2 <= max && 1 <= s
    ensures Nondecreasing(Reported(m, s, max))
    decreases max - s
  {
    if s < max {
      var c := Clip(s, max);
      var first, rest := InChunk(m, c, CHUNK), Reported(m, c.0 + CHUNK, max);
      InChunkAre(m, c, CHUNK);
      ReportedSorted(m, c.0 + CHUNK, max);
      ReportedFrom(m, c.0 + CHUNK, max);
      JoinSorted(first, rest, c.0 + CHUNK - 1);
    }
  }

  /** No bad sector may lie among the first five. */
  predicate Usable(report: seq<int>) {
    forall i :: 0 <= i < |report| ==> 5 <= report[i]
  }

  lemma FirstFive(m: Medium, c: (nat, nat), i: nat)
    requires i < CHUNK && Differs(m, c, i) && c.0 + i < 5
    ensures !Usable(InChunk(m, c, CHUNK))
  {
    InChunkAre(m, c, CHUNK);
    assert c.0 + i in InChunk(m, c, CHUNK);
  }

  /** The buffer and the outcome of the transfers tell what the comparisons find. */
  ghost predicate Tells(huge: array<seq<byte>>, surfaceError: bool, m: Medium, c: (nat, nat))
    reads huge
  {
    huge.Length == CHUNK && forall i :: 0 <= i < CHUNK ==> (surfaceError || huge[i] != Pattern() <==> Differs(m, c, i))
  }

  /** Lines 173 to 195: the pattern is written and read back. */
  method Exchange(m: Medium, huge: array<seq<byte>>, c: (nat, nat)) returns (surfaceError: bool)
    requires huge.Length == CHUNK && c.1 <= CHUNK
    modifies huge
    ensures Tells(huge, surfaceError, m, c)
  {
    var index := 0;
    while index < CHUNK
      invariant 0 <= index <= CHUNK && forall i :: 0 <= i < index ==> huge[i] == Pattern()
    {
      huge[index] := Pattern();
      index := index + 1;
    }
    index := 0;
    while index < c.1
      invariant 0 <= index <= c.1
      invariant forall i :: 0 <= i < index ==> huge[i] == m.stored(c.0 + i)
      invariant forall i :: index <= i < CHUNK ==> huge[i] == Pattern()
    {
      huge[index] := m.stored(c.0 + index);
      index := index + 1;
    }
    return m.fails(c.0, c.1);
  }

  /** The list holds what has been reported, cut to 1024 entries. */
  ghost predicate Holds(list: BadList, report: seq<int>)
    reads list, list.bads
  {
    list.BeforeEnd() && list.Contents() == Kept(report)
  }

  method Enter(list: BadList, x: int, ghost report: seq<int>)
    requires Holds(list, report) && 0 < x
    modifies list, list.bads
    ensures Holds(list, report + [x]) && list.bads == old(list.bads)
  {
    list.Note(x);
    KeptPushed(report, x);
  }

  /** The first `n` comparisons of the chunk are done. */
  ghost predicate Entered(m: Medium, c: (nat, nat), n: nat, list: BadList, all: seq<int>)
    reads list, list.bads
  {
    Holds(list, all + InChunk(m, c, n)) && Usable(InChunk(m, c, n))
  }

  /** Lines 208 to 235 */
  method CheckSector(ghost m: Medium, huge: array<seq<byte>>, surfaceError: bool, list: BadList, c: (nat, nat),
                     index: nat, ghost all: seq<int>)
    returns (usable: bool)
    requires index < CHUNK && Tells(huge, surfaceError, m, c) && Entered(m, c, index, list, all)
    modifies list, list.bads
    ensures list.bads == old(list.bads) && list.BeforeEnd() && Tells(huge, surfaceError, m, c)
    ensures if usable then Entered(m, c, index + 1, list, all) else !Usable(InChunk(m, c, CHUNK))
  {
    if surfaceError || huge[index] != Pattern() {
      if c.0 + index < 5 {
        FirstFive(m, c, index);
        return false;
      }
      ghost var found := InChunk(m, c, index);
      assert all + (found + [c.0 + index]) == all + found + [c.0 + index];
      Enter(list, c.0 + index, all + found);
    }
    return true;
  }

  /** One chunk, where `all` is what has been reported before: lines 173 to 237. */
  method CheckChunk(m: Medium, huge: array<seq<byte>>, list: BadList, c: (nat, nat), ghost all: seq<int>)
    returns (usable: bool)
    requires huge.Length == CHUNK && c.1 <= CHUNK && Holds(list, all)
    modifies huge, list, list.bads
    ensures list.bads == old(list.bads) && list.BeforeEnd()
    ensures usable <==> Usable(InChunk(m, c, CHUNK))
    ensures usable ==> Holds(list, all + InChunk(m, c, CHUNK))
  {
    var surfaceError := Exchange(m, huge, c);
    var index := 0;
    assert all + [] == all;
    while index < CHUNK
      invariant 0 <= index <= CHUNK && list.bads == old(list.bads)
      invariant Tells(huge, surfaceError, m, c)
      invariant Entered(m, c, index, list, all)
    {
      usable := CheckSector(m, huge, surfaceError, list, c, index, all);
      if !usable { return; }
      index := index + 1;
    }
    return true;
  }

  lemma UsableParts(a: seq<int>, b: seq<int>, c: seq<int>)
    requires Usable(a)
    ensures Usable(a + b) <==> Usable(b)
    ensures !Usable(b) ==> !Usable(a + b + c)
  {
    assert forall i :: 0 <= i < |b| ==> (a + b)[|a| + i] == b[i] && (a + b + c)[|a| + i] == b[i];
  }

  lemma ScanStep(m: Medium, s: nat, max: nat, all: seq<int>)
    requires 2 <= max && 1 <= s < max && Usable(all)
    ensures var c := Clip(s, max);
            var found := InChunk(m, c, CHUNK);
            && all + Reported(m, s, max) == all + found + Reported(m, c.0 + CHUNK, max)
            && (Usable(all + found) <==> Usable(found))
            && (!Usable(found) ==> !Usable(all + Reported(m, s, max)))
  {
    var c := Clip(s, max);
    var found, rest := InChunk(m, c, CHUNK), Reported(m, c.0 + CHUNK, max);
    assert all + (found + rest) == all + found + rest;
    UsableParts(all, found, rest);
  }

  /**
   * The scan gives up exactly when a sector below 5 is reported; otherwise the list holds the report, cut to
   * 1024 entries.
   */
  method ScanSurface(m: Medium, max: nat, huge: array<seq<byte>>, list: BadList) returns (usable: bool)
    requires 2 <= max && huge.Length == CHUNK && list.BeforeEnd() && list.Contents() == []
    modifies huge, list, list.bads
    ensures list.BeforeEnd()
    ensures usable <==> Usable(Reported(m, 1, max))
    ensures usable ==> list.Contents() == Kept(Reported(m, 1, max))
  {
    var sectorNumber := 1;
    ghost var all, report := [], Reported(m, 1, max);
    while sectorNumber < max
      invariant 1 <= sectorNumber && list.bads == old(list.bads)
      invariant report == all + Reported(m, sectorNumber, max) && Usable(all)
      invariant Holds(list, all)
      decreases max - sectorNumber
    {
      var howmany := CHUNK;
      ghost var c := Clip(sectorNumber, max);
      ScanStep(m, sectorNumber, max, all);
      if sectorNumber + CHUNK > max {
        howmany := max - sectorNumber;
        if howmany < 2 {
          sectorNumber, howmany := sectorNumber - 1, howmany + 1;
        }
      }
      assert (sectorNumber, howmany) == c;
      var ok := CheckChunk(m, huge, list, (sectorNumber, howmany), all);
      if !ok {
        return false;
      }
      all := all + InChunk(m, c, CHUNK);
      sectorNumber := sectorNumber + CHUNK;
    }
    assert report == all;
    return true;
  }
}
