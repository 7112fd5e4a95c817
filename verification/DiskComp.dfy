/** The drive layer of diskcomp/drive.c: the DMA buffer search and the two checksum loops. */
module DiskComp {
  import opened Bytes
  import opened Commons
  import opened Rfc1321
  import opened Md5

  const SECTOR := 512
  const POOL := 63 * SECTOR
  const UNSET := 0xffff

  /** The DMA controller cannot address `n` bytes at `start` when a 64K boundary lies among or right after them. */
  predicate Crosses(start: nat, n: nat) {
    start / 0x1_0000 != (start + n) / 0x1_0000
  }

  /** `o` is a place in the pool, on the search grid of 512 bytes from `from`, that serves `n` bytes. */
  predicate Serves(pool: nat, from: nat, n: nat, o: nat) {
    from <= o && (o - from) % SECTOR == 0 && o + n <= POOL && !Crosses(pool + o, n)
  }

  /** The only 64K boundary a range that starts in the pool and is shorter than 64K can cross. */
  function Boundary(pool: nat): nat { (pool / 0x1_0000 + 1) * 0x1_0000 }

  /** The start of the pool, or the first place of the grid that is not before the boundary. */
  predicate Anchored(pool: nat, o: nat) {
    o == 0 || Boundary(pool) <= pool + o < Boundary(pool) + SECTOR
  }

  lemma CrossingIsAtBoundary(pool: nat, o: nat, n: nat)
    requires o <= POOL && n <= 0x8000
    ensures Crosses(pool + o, n) <==> pool + o < Boundary(pool) <= pool + o + n
  {
  }

  class DmaBuffer {
    const pool: nat
    var theoffset: nat
    var thesize: nat

    /** The buffer known so far lies in the pool, and starts at the pool or just behind a boundary. */
    ghost predicate Valid()
      reads this
    {
      || (theoffset == UNSET && thesize == 0)
      || (Serves(pool, 0, thesize, theoffset) && Anchored(pool, theoffset) && theoffset < thesize + SECTOR)
    }

    constructor (pool: nat)
      ensures Valid() && this.pool == pool && theoffset == UNSET
    {
      this.pool := pool;
      theoffset, thesize := UNSET, 0;
    }

    /** Lines 45 to 86: from the present offset on in steps of a sector. */
    method Search(howbig: nat) returns (r: Option<nat>)
      requires 0 < howbig <= 0x8000 && theoffset <= POOL && theoffset % SECTOR == 0
      requires Anchored(pool, theoffset) && theoffset < howbig + SECTOR
      modifies this
      ensures match r
              case Some(o) =>
                && theoffset == o && thesize == howbig && Serves(pool, old(theoffset), howbig, o)
                && forall o' :: old(theoffset) <= o' < o ==> !Serves(pool, old(theoffset), howbig, o')
              case None => forall o' :: !Serves(pool, old(theoffset), howbig, o')
      ensures r.Some? ==> Valid()
      ensures howbig <= 31 * SECTOR ==> r.Some?
    {
      ghost var from := theoffset;
      while true
        invariant from <= theoffset <= POOL && (theoffset - from) % SECTOR == 0 && theoffset % SECTOR == 0
        invariant Anchored(pool, theoffset) || pool + theoffset < Boundary(pool) <= pool + howbig
        invariant theoffset < howbig + SECTOR
        invariant forall o' :: from <= o' < theoffset ==> !Serves(pool, from, howbig, o')
        decreases POOL - theoffset
      {
        if theoffset + howbig > POOL { return None; }
        CrossingIsAtBoundary(pool, theoffset, howbig);
        var bstart, bend := pool + theoffset, pool + theoffset + howbig;
        if bstart / 0x1_0000 != bend / 0x1_0000 {
          theoffset := theoffset + SECTOR;
        } else {
          thesize := howbig;
          return Some(theoffset);
        }
      }
    }

    /**
     * The offset of a buffer of `howbig` bytes, or None where the program ends with a message.
     * The sum of two 16-bit numbers in the pool check cannot wrap for these sizes.
     */
    method Ensure(howbig: nat) returns (r: Option<nat>)
      requires Valid() && 0 < howbig <= 0x8000
      modifies this
      ensures old(thesize) >= howbig ==>
                r == Some(old(theoffset)) && theoffset == old(theoffset) && thesize == old(thesize)
      ensures old(thesize) < howbig ==>
                var from := if old(theoffset) == UNSET then 0 else old(theoffset);
                match r
                case Some(o) =>
                  && theoffset == o && thesize == howbig && Serves(pool, from, howbig, o)
                  && forall o' :: from <= o' < o ==> !Serves(pool, from, howbig, o')
                case None => forall o' :: !Serves(pool, from, howbig, o')
      ensures r.Some? ==> Valid()
      ensures howbig <= 31 * SECTOR ==> r.Some?
    {
      if thesize >= howbig { return Some(theoffset); }
      if theoffset == UNSET { theoffset := 0; }
      r := Search(howbig);
    }
  }

  ghost predicate Available(pool: nat, n: nat) { exists o: nat :: Serves(pool, 0, n, o) }

  /**
   * The remark at line 171: a buffer of `n` bytes is found wherever the pool lies in memory
   * exactly when `n` is at most 31 of the 63 sectors.
   */
  lemma LessThanHalfPool(n: nat)
    requires 0 < n <= 0x8000
    ensures (forall pool: nat :: Available(pool, n)) <==> n <= 31 * SECTOR
  {
    if n <= 31 * SECTOR {
      forall pool: nat ensures Available(pool, n) {
        CrossingIsAtBoundary(pool, 0, n);
        if Crosses(pool, n) {
          var o := (Boundary(pool) - pool + SECTOR - 1) / SECTOR * SECTOR;
          CrossingIsAtBoundary(pool, o, n);
          assert Serves(pool, 0, n, o);
        } else {
          assert Serves(pool, 0, n, 0);
        }
      }
    } else {
      var pool := 0x1_0000 - 31 * SECTOR - 1;
      forall o: nat ensures !Serves(pool, 0, n, o) {
        if o <= POOL { CrossingIsAtBoundary(pool, o, n); }
      }
      assert !Available(pool, n);
    }
  }

  /** Any run of requests of at most 31 sectors is served, each inside the pool and inside one 64K page. */
  method ServeAll(buffer: DmaBuffer, requests: seq<nat>) returns (offsets: seq<nat>)
    requires buffer.Valid()
    requires forall i :: 0 <= i < |requests| ==> 0 < requests[i] <= 31 * SECTOR
    modifies buffer
    ensures buffer.Valid() && |offsets| == |requests|
    ensures forall i :: 0 <= i < |requests| ==>
              offsets[i] + requests[i] <= POOL && !Crosses(buffer.pool + offsets[i], requests[i])
  {
    offsets := [];
    for k := 0 to |requests|
      invariant buffer.Valid() && |offsets| == k
      invariant forall i :: 0 <= i < k ==>
                  offsets[i] + requests[i] <= POOL && !Crosses(buffer.pool + offsets[i], requests[i])
    {
      var r := buffer.Ensure(requests[k]);
      offsets := offsets + [r.value];
    }
  }

  /** Head `hd` of cylinder `cyl` is the k-th track. */
  ghost predicate At(cyl: nat, hd: nat, tracks: nat, heads: nat, k: nat) {
    cyl <= tracks && hd < heads && k == cyl * heads + hd && (cyl == tracks ==> hd == 0)
  }

  lemma TrackIndex(cyl: nat, hd: nat, tracks: nat, heads: nat, k: nat)
    requires cyl < tracks && At(cyl, hd, tracks, heads, k)
    ensures 0 <= cyl * heads + hd == k < tracks * heads
    ensures hd + 1 == heads ==> k + 1 == (cyl + 1) * heads
  {
    assert (cyl + 1) * heads == cyl * heads + heads;
    Times(cyl + 1, tracks, heads);
  }

  /** One track, and the head and cylinder of the next one. */
  method TakeTrack(state: Md5State, disk: seq<seq<byte>>, cyl: nat, hd: nat, tracks: nat, heads: nat, size: nat,
                   ghost k: nat, ghost all: nat)
    returns (c: nat, h: nat)
    requires cyl < tracks && At(cyl, hd, tracks, heads, k) && k < |disk| == all == tracks * heads
    requires size + 63 < 0x8000_0000 && forall t :: 0 <= t < |disk| ==> |disk[t]| == size
    requires state.Sound() && state.message == Concat(disk[..k])
    modifies state, state.buf
    ensures state.Sound() && state.message == Concat(disk[..k + 1])
    ensures At(c, h, tracks, heads, k + 1) && (c == tracks ==> k + 1 == all)
  {
    TrackIndex(cyl, hd, tracks, heads, k);
    var buffer := disk[cyl * heads + hd];
    ConcatNext(disk, k);
    assert buffer[..size] == buffer;
    state.Append(buffer, size);
    c, h := cyl, hd + 1;
    if h == heads {
      c, h := c + 1, 0;
    }
  }

  method TakeTracks(state: Md5State, disk: seq<seq<byte>>, tracks: nat, heads: nat, size: nat, ghost all: nat)
    requires 1 <= heads && size + 63 < 0x8000_0000 && |disk| == all == tracks * heads
    requires forall t :: 0 <= t < |disk| ==> |disk[t]| == size
    requires state.Sound() && state.message == []
    modifies state, state.buf
    ensures state.Sound() && state.message == Concat(disk[..all])
  {
    var cyl: nat, hd: nat := 0, 0;
    ghost var done: nat := 0;
    while cyl < tracks
      invariant At(cyl, hd, tracks, heads, done) && done <= all && (cyl == tracks ==> done == all)
      invariant state.Sound() && state.message == Concat(disk[..done])
      decreases all - done
    {
      TrackIndex(cyl, hd, tracks, heads, done);
      cyl, hd := TakeTrack(state, disk, cyl, hd, tracks, heads, size, done, all);
      done := done + 1;
    }
  }

  /** bioschecksumdrive: `disk` holds the sectors of one side of one cylinder per element, cylinder after cylinder. */
  method BiosChecksum(ar: Arithmetic<word>, f: Compression, disk: seq<seq<byte>>, tracks: nat, heads: nat, spt: nat)
    returns (digest: seq<byte>)
    requires Compresses(f, ar) && 1 <= heads && spt < 256 && |disk| == tracks * heads
    requires forall t :: 0 <= t < |disk| ==> |disk[t]| == spt * SECTOR
    ensures digest == Digest(f, Concat(disk))
  {
    var state := new Md5State(ar, f);
    TakeTracks(state, disk, tracks, heads, spt * SECTOR, tracks * heads);
    assert disk[..|disk|] == disk;
    digest := state.DigestNow();
  }

  /** doschecksumdrive reads 32 sectors at a time and clips the last read. */
  method DosChecksum(ar: Arithmetic<word>, f: Compression, disk: seq<byte>, nsecs: nat) returns (digest: seq<byte>)
    requires Compresses(f, ar) && |disk| == nsecs * SECTOR
    ensures digest == Digest(f, disk)
  {
    var state := new Md5State(ar, f);
    var i := 0;
    while i < nsecs
      invariant fresh(state) && fresh(state.buf) && state.f == f && state.Sound()
      invariant state.message == disk[..(if i < nsecs then i else nsecs) * SECTOR]
    {
      var howmany := 32;
      if howmany + i > nsecs {
        howmany := nsecs - i;
      }
      var buffer := disk[i * SECTOR..(i + howmany) * SECTOR];
      assert disk[..(i + howmany) * SECTOR] == disk[..i * SECTOR] + buffer[..howmany * SECTOR];
      state.Append(buffer, howmany * SECTOR);
      i := i + 32;
    }
    assert disk[..|disk|] == disk;
    digest := state.DigestNow();
  }
}
