/** format/bcread.c: an old FAT is read for its bad clusters and for how much of the disk is in use. */
module BcRead {
  import opened Bytes
  import opened Commons
  import opened Fat

  /** The counters of the three scans and the list of bad sectors. */
  datatype Tally = Tally(used: nat, bad: nat, items: nat, last: nat, list: seq<int>)

  function Counted(t: Tally, c: nat, k: Kind, sector: int): (r: Tally)
    requires |t.list| <= MAX_BAD
    ensures |r.list| <= MAX_BAD
  {
    match k
    case Free => t
    case Bad => t.(bad := t.bad + 1, list := Pushed(t.list, sector))
    case Used => t.(used := t.used + 1, last := c)
    case Last => t.(used := t.used + 1, last := c, items := t.items + 1)
  }

  /** Going through the entries 2..n-1 one at a time. */
  function Scan(kinds: seq<Kind>, n: nat, list: seq<int>, first: nat, perCluster: nat): (t: Tally)
    requires n <= |kinds| && |list| <= MAX_BAD
    ensures |t.list| <= MAX_BAD
  {
    if n <= 2 then Tally(0, 0, 0, 2, list)
    else Counted(Scan(kinds, n - 1, list, first, perCluster), n - 1, kinds[n - 1], SectorOf(n - 1, first, perCluster))
  }

  /** The clusters 2..n-1 of one kind. */
  ghost function Those(kinds: seq<Kind>, n: nat, k: Kind): (r: set<int>)
    requires n <= |kinds|
    ensures forall c :: c in r <==> 2 <= c < n && kinds[c] == k
  {
    if n <= 2 then {}
    else if kinds[n - 1] == k then Those(kinds, n - 1, k) + {n - 1}
    else Those(kinds, n - 1, k)
  }

  /** The clusters 2..n-1 that belong to files. */
  ghost function InUse(kinds: seq<Kind>, n: nat): (r: set<int>)
    requires n <= |kinds|
    ensures forall c :: c in r <==> 2 <= c < n && (kinds[c].Used? || kinds[c].Last?)
  {
    if n <= 2 then {}
    else if kinds[n - 1].Used? || kinds[n - 1].Last? then InUse(kinds, n - 1) + {n - 1}
    else InUse(kinds, n - 1)
  }

  /** The bad clusters in ascending order. */
  function BadClusters(kinds: seq<Kind>, n: nat): (r: seq<int>)
    requires n <= |kinds|
    ensures forall i :: 0 <= i < |r| ==> 2 <= r[i] < n
  {
    if n <= 2 then []
    else
      var r := BadClusters(kinds, n - 1);
      if kinds[n - 1].Bad? then r + [n - 1] else r
  }

  ghost predicate Increasing(s: seq<int>) {
    forall i, j :: 0 <= i < j < |s| ==> s[i] < s[j]
  }

  lemma {:induction false} BadClustersAre(kinds: seq<Kind>, n: nat)
    requires n <= |kinds|
    ensures forall c :: c in BadClusters(kinds, n) <==> 2 <= c < n && kinds[c].Bad?
    ensures Increasing(BadClusters(kinds, n))
  {
    if n > 2 {
      BadClustersAre(kinds, n - 1);
      var r := BadClusters(kinds, n - 1);
      assert forall c :: c in BadClusters(kinds, n) <==> c in r || (c == n - 1 && kinds[n - 1].Bad?);
    }
  }

  function Sectors(clusters: seq<int>, first: nat, perCluster: nat): (r: seq<int>)
    requires forall i :: 0 <= i < |clusters| ==> 2 <= clusters[i]
    ensures |r| == |clusters|
    ensures forall i :: 0 <= i < |r| ==> r[i] == SectorOf(clusters[i], first, perCluster)
  {
    seq(|clusters|, i requires 0 <= i < |clusters| => SectorOf(clusters[i], first, perCluster))
  }

  /** At most 1024 elements are kept: the first 1023 and the latest. */
  function Kept(list: seq<int>): (r: seq<int>)
    ensures |r| <= MAX_BAD
  {
    if |list| <= MAX_BAD then list else list[..MAX_BAD - 1] + [list[|list| - 1]]
  }

  lemma KeptPushed(list: seq<int>, x: int)
    ensures Pushed(Kept(list), x) == Kept(list + [x])
  {
  }

  /** The list holds the first sectors of the bad clusters in ascending order, as far as there is room. */
  lemma {:induction false} ListIs(kinds: seq<Kind>, n: nat, list: seq<int>, first: nat, perCluster: nat)
    requires n <= |kinds| && |list| <= MAX_BAD
    ensures Scan(kinds, n, list, first, perCluster).list
         == Kept(list + Sectors(BadClusters(kinds, n), first, perCluster))
  {
    var now := Sectors(BadClusters(kinds, n), first, perCluster);
    if n <= 2 {
      assert list + now == list;
    } else {
      ListIs(kinds, n - 1, list, first, perCluster);
      var was := Sectors(BadClusters(kinds, n - 1), first, perCluster);
      if kinds[n - 1].Bad? {
        var x := SectorOf(n - 1, first, perCluster);
        KeptPushed(list + was, x);
        assert list + now == list + was + [x];
      }
    }
  }

  lemma InUseNext(kinds: seq<Kind>, n: nat)
    requires 2 < n <= |kinds|
    ensures |InUse(kinds, n)| == |InUse(kinds, n - 1)| + if kinds[n - 1].Used? || kinds[n - 1].Last? then 1 else 0
  {
  }

  lemma ThoseNext(kinds: seq<Kind>, n: nat, k: Kind)
    requires 2 < n <= |kinds|
    ensures |Those(kinds, n, k)| == |Those(kinds, n - 1, k)| + if kinds[n - 1] == k then 1 else 0
  {
  }

  /** The three counts are exact. */
  lemma {:induction false} CountsAre(kinds: seq<Kind>, n: nat, list: seq<int>, first: nat, perCluster: nat)
    requires n <= |kinds| && |list| <= MAX_BAD
    ensures var t := Scan(kinds, n, list, first, perCluster);
            && t.used == |InUse(kinds, n)| && t.bad == |Those(kinds, n, Bad)| && t.items == |Those(kinds, n, Last)|
  {
    if n > 2 {
      CountsAre(kinds, n - 1, list, first, perCluster);
      InUseNext(kinds, n);
      ThoseNext(kinds, n, Bad);
      ThoseNext(kinds, n, Last);
    }
  }

  /** `last` is the highest cluster in use, 2 when there is none. */
  lemma {:induction false} LastIs(kinds: seq<Kind>, n: nat, list: seq<int>, first: nat, perCluster: nat)
    requires n <= |kinds| && |list| <= MAX_BAD
    ensures var last, used := Scan(kinds, n, list, first, perCluster).last, InUse(kinds, n);
            (if used == {} then last == 2 else last in used) && (forall c :: c in used ==> c <= last)
  {
    if n > 2 { LastIs(kinds, n - 1, list, first, perCluster); }
  }

  lemma KeptIsSorted(list: seq<int>)
    requires Nondecreasing(list)
    ensures Nondecreasing(Kept(list))
  {
  }

  /** A list that was empty before comes out in nondecreasing order. */
  lemma ScanIsSorted(kinds: seq<Kind>, n: nat, first: nat, perCluster: nat)
    requires n <= |kinds|
    ensures Nondecreasing(Scan(kinds, n, [], first, perCluster).list)
  {
    var clusters := BadClusters(kinds, n);
    var sectors := Sectors(clusters, first, perCluster);
    ListIs(kinds, n, [], first, perCluster);
    BadClustersAre(kinds, n);
    forall i, j | 0 <= i < j < |sectors| ensures sectors[i] <= sectors[j] {
      Times(clusters[i] - 2, clusters[j] - 2, perCluster);
    }
    KeptIsSorted(sectors);
    assert [] + sectors == sectors;
  }

  /** Two entries at a time are the same as one at a time. */
  lemma TwoMore(kinds: seq<Kind>, c: nat, list: seq<int>, first: nat, perCluster: nat)
    requires 2 <= c && c + 2 <= |kinds| && |list| <= MAX_BAD
    ensures Scan(kinds, c + 2, list, first, perCluster)
         == Counted(Counted(Scan(kinds, c, list, first, perCluster), c, kinds[c], SectorOf(c, first, perCluster)),
                    c + 1, kinds[c + 1], SectorOf(c + 1, first, perCluster))
  {
  }

  /** What each scan leaves behind. */
  ghost predicate Scanned(list: BadList, was: seq<int>, kinds: seq<Kind>, n: nat, first: nat, perCluster: nat,
                          used: nat, bad: nat, items: nat, last: nat)
    reads list, list.bads
    requires n <= |kinds| && |was| <= MAX_BAD
  {
    list.AtEnd() && Scan(kinds, n, was, first, perCluster) == Tally(used, bad, items, last, list.Contents())
  }

  ghost function Kinds12(t: seq<byte>): (k: seq<Kind>)
    requires 6120 <= |t|
    ensures |k| == 4080
  {
    seq(4080, c requires 0 <= c < 4080 => KindOf12(Entry12(t, c)))
  }

  /** The pair of entries in three bytes, as lines 252 to 257 take them apart. */
  lemma PairIs(t: seq<byte>, k: nat)
    requires 3 * k + 2 < |t|
    ensures Entry12(t, 2 * k) == EvenEntry(t[3 * k], t[3 * k + 1])
    ensures Entry12(t, 2 * k + 1) == OddEntry(t[3 * k + 1], t[3 * k + 2])
  {
    assert 2 * k * 3 / 2 == 3 * k && (2 * k + 1) * 3 / 2 == 3 * k + 1;
  }

  /** The end of the highest cluster in use, with cluster `last`. */
  function LastUsedSector(first: nat, last: nat, perCluster: nat): int
    requires 2 <= last
  {
    first + (1 + last - 2) * perCluster - 1
  }

  method PushIf(list: BadList, bad: bool, x: int)
    requires list.AtEnd() && 0 < x
    modifies list, list.bads
    ensures list.AtEnd() && list.bads == old(list.bads)
    ensures list.Contents() == if bad then Pushed(old(list.Contents()), x) else old(list.Contents())
  {
    if bad { list.Push(x); }
  }

  /** Lines 258 to 293: both entries are counted, and the bad ones go to the list. */
  method Pair(list: BadList, clust: nat, a: bv16, b: bv16, first: nat, perCluster: nat,
              u: nat, d: nat, i: nat, l: nat)
    returns (used: nat, bad: nat, items: nat, last: nat)
    requires list.AtEnd() && 0 < first && 2 <= clust && 2 <= l
    modifies list, list.bads
    ensures list.AtEnd() && list.bads == old(list.bads) && 2 <= last
    ensures Tally(used, bad, items, last, list.Contents())
         == Counted(Counted(Tally(u, d, i, l, old(list.Contents())), clust, KindOf12(a), SectorOf(clust, first, perCluster)),
                    clust + 1, KindOf12(b), SectorOf(clust + 1, first, perCluster))
  {
    var clusta, clustb := a, b;
    used, bad, items, last := u, d, i, l;
    if clusta > 0xff7 {
      clusta, items := 1, items + 1;
    }
    if clustb > 0xff7 {
      clustb, items := 1, items + 1;
    }
    PushIf(list, clusta > 0xff0, SectorOf(clust, first, perCluster));
    if clusta > 0xff0 {
      clusta, bad := 0, bad + 1;
    }
    PushIf(list, clustb > 0xff0, SectorOf(clust + 1, first, perCluster));
    if clustb > 0xff0 {
      clustb, bad := 0, bad + 1;
    }
    if clusta > 0 {
      used, last := used + 1, clust;
    }
    if clustb > 0 {
      used, last := used + 1, clust + 1;
    }
  }

  method PairTurn(list: BadList, clust: nat, a: bv16, b: bv16, first: nat, perCluster: nat,
                  u: nat, d: nat, i: nat, l: nat, ghost kinds: seq<Kind>, ghost was: seq<int>)
    returns (used: nat, bad: nat, items: nat, last: nat)
    requires 0 < first && 2 <= clust && clust + 2 <= |kinds| && 2 <= l && |was| <= MAX_BAD
    requires kinds[clust] == KindOf12(a) && kinds[clust + 1] == KindOf12(b)
    requires Scanned(list, was, kinds, clust, first, perCluster, u, d, i, l)
    modifies list, list.bads
    ensures list.bads == old(list.bads) && 2 <= last
    ensures Scanned(list, was, kinds, clust + 2, first, perCluster, used, bad, items, last)
  {
    TwoMore(kinds, clust, was, first, perCluster);
    used, bad, items, last := Pair(list, clust, a, b, first, perCluster, u, d, i, l);
  }

  method Pairs(buf: array<byte>, list: BadList, first: nat, perCluster: nat)
    returns (used: nat, bad: nat, items: nat, last: nat)
    requires list.AtEnd() && 6120 <= buf.Length && 0 < first
    modifies list, list.bads
    ensures Scanned(list, old(list.Contents()), Kinds12(buf[..]), 4080, first, perCluster, used, bad, items, last)
    ensures list.bads == old(list.bads) && 2 <= last
  {
    ghost var kinds, was := Kinds12(buf[..]), list.Contents();
    used, bad, items, last := 0, 0, 0, 2;
    var clust, index := 2, 3;
    ghost var k := 1;
    while clust < 4080
      invariant 2 <= clust <= 4080 && clust == 2 * k && index == 3 * k
      invariant list.bads == old(list.bads) && 2 <= last
      invariant Scanned(list, was, kinds, clust, first, perCluster, used, bad, items, last)
    {
      PairIs(buf[..], k);
      var clusta, clustb := EvenEntry(buf[index], buf[index + 1]), OddEntry(buf[index + 1], buf[index + 2]);
      used, bad, items, last :=
        PairTurn(list, clust, clusta, clustb, first, perCluster, used, bad, items, last, kinds, was);
      clust, index := clust + 2, index + 3;
      k := k + 1;
    }
  }

  /**
   * `buf` is where the FAT is read to; what it holds beyond the FAT takes part in the scan, which always
   * covers the clusters 2..4079.
   */
  method BadClustPreserve12(drive: Drive, buf: array<byte>, list: BadList, b: Bpb)
    returns (end: int, used: nat, bad: nat, items: nat, last: nat)
    requires list.AtEnd() && buf.Length == 21 * SECTOR
    requires Formatted(drive.sectors) && b.reserved + b.fatSize <= |drive.sectors| && 0 < b.reserved
    modifies buf, list, list.bads
    ensures list.bads == old(list.bads) && 2 <= last
    ensures 21 < b.fatSize ==> end == 0xffff_ffff && list.AtEnd() && list.Contents() == old(list.Contents())
    ensures b.fatSize <= 21 ==>
      && (forall i :: 0 <= i < SECTOR * b.fatSize ==>
            buf[i] == drive.sectors[b.reserved + i / SECTOR][i % SECTOR])
      && (forall i :: SECTOR * b.fatSize <= i < buf.Length ==> buf[i] == old(buf[i]))
      && Scanned(list, old(list.Contents()), Kinds12(buf[..]), 4080, ClusterStart(b), b.perCluster,
                 used, bad, items, last)
      && end == LastUsedSector(ClusterStart(b), last, b.perCluster)
  {
    used, bad, items, last := 0, 0, 0, 2;
    if 21 < b.fatSize {
      end := 0xffff_ffff;
      return;
    }
    DataBehindBoot(b);
    drive.Read(b.reserved, b.fatSize, buf);
    used, bad, items, last := Pairs(buf, list, ClusterStart(b), b.perCluster);
    end := LastUsedSector(ClusterStart(b), last, b.perCluster);
  }

  /** The first two entries stand for no cluster. */
  ghost predicate Skips(kinds: seq<Kind>) {
    forall c :: 0 <= c < 2 && c < |kinds| ==> kinds[c] == Free
  }

  lemma OneMore(kinds: seq<Kind>, c: nat, list: seq<int>, first: nat, perCluster: nat)
    requires c < |kinds| && |list| <= MAX_BAD && Skips(kinds)
    ensures Scan(kinds, c + 1, list, first, perCluster)
         == Counted(Scan(kinds, c, list, first, perCluster), c, kinds[c],
                    if c < 2 then 0 else SectorOf(c, first, perCluster))
  {
  }

  /** The kinds of all clusters of a FAT with 16-bit entries; the first two entries are not looked at. */
  ghost function Kinds16(sectors: seq<seq<byte>>, start: nat, fatSize: nat): (k: seq<Kind>)
    requires Formatted(sectors) && start + fatSize <= |sectors|
    ensures |k| == 256 * fatSize && Skips(k)
  {
    seq(256 * fatSize, e requires 0 <= e < 256 * fatSize =>
      if e < 2 then Free else KindOf16(Entry16(sectors[start + e / 256], e % 256)))
  }

  /** Where the bytes of entry `e` stand in a chunk that was read from sector `sect`. */
  lemma Place16(e: nat, j: nat, sect: nat, start: nat)
    requires start <= sect && j == 256 * (sect - start) && j <= e
    ensures sect + 2 * (e - j) / SECTOR == start + e / 256 && 2 * (e - j) % SECTOR == 2 * (e % 256)
    ensures sect + (2 * (e - j) + 1) / SECTOR == start + e / 256 && (2 * (e - j) + 1) % SECTOR == 2 * (e % 256) + 1
  {
  }

  lemma Zero16()
    ensures Half(0, 0) == 0 && KindOf16(0) == Free
  {
  }

  /** Word `i` of what was read is entry j + i of the FAT. */
  lemma ReadEntry16(read: seq<byte>, sectors: seq<seq<byte>>, sect: nat, start: nat, j: nat, n: nat, i: nat)
    requires Formatted(sectors) && start <= sect && sect + n <= |sectors| && SECTOR * n <= |read|
    requires j == 256 * (sect - start) && i < 256 * n
    requires forall p :: 0 <= p < SECTOR * n ==> read[p] == sectors[sect + p / SECTOR][p % SECTOR]
    ensures Half(read[2 * i], read[2 * i + 1]) == Entry16(sectors[start + (j + i) / 256], (j + i) % 256)
  {
    Place16(j + i, j, sect, start);
    var sector, k := sectors[start + (j + i) / 256], (j + i) % 256;
    assert read[2 * i + 0] == sector[2 * k + 0];
    assert read[2 * i + 1] == sector[2 * k + 1];
  }

  /** Lines 194 to 210: one entry is counted, or its cluster goes to the list. */
  method Slot16(list: BadList, c: nat, w: bv16, first: nat, perCluster: nat, u: nat, d: nat, i: nat, l: nat)
    returns (used: nat, bad: nat, items: nat, last: nat)
    requires list.AtEnd() && 0 < first && 2 <= l && (c < 2 ==> w == 0)
    modifies list, list.bads
    ensures list.AtEnd() && list.bads == old(list.bads) && 2 <= last
    ensures Tally(used, bad, items, last, list.Contents())
         == Counted(Tally(u, d, i, l, old(list.Contents())), c, KindOf16(w),
                    if c < 2 then 0 else SectorOf(c, first, perCluster))
  {
    used, bad, items, last := u, d, i, l;
    var m := w;
    if m < 0xfff0 || m > 0xfff7 {
      if m != 0 {
        used, last := used + 1, c;
      }
      if m > 0xfff7 {
        items := items + 1;
      }
    } else {
      list.Push(SectorOf(c, first, perCluster));
      bad := bad + 1;
    }
  }

  /** Word `i` of a buffer. */
  function At16(buf: array<byte>, i: nat): bv16
    reads buf
    requires 2 * i + 1 < buf.Length
  {
    Half(buf[2 * i], buf[2 * i + 1])
  }

  /** The buffer tells the kinds of the clusters j..j+n-1; those of 0 and 1 have been cleared. */
  ghost predicate Chunk16Is(buf: array<byte>, n: nat, kinds: seq<Kind>, j: nat)
    reads buf
    requires 2 * n <= buf.Length && j + n <= |kinds|
  {
    forall i :: 0 <= i < n ==> KindOf16(At16(buf, i)) == kinds[j + i] && (j + i < 2 ==> At16(buf, i) == 0)
  }

  /** The entries of one chunk, which are those of the clusters j..j+n-1. */
  method Slots16(buf: array<byte>, n: nat, list: BadList, j: nat, first: nat, perCluster: nat,
                 u: nat, d: nat, t: nat, l: nat, ghost kinds: seq<Kind>, ghost was: seq<int>)
    returns (used: nat, bad: nat, items: nat, last: nat)
    requires buf.Length == 21 * SECTOR || buf.Length == SECTOR
    requires 0 < first && 2 * n <= buf.Length && j + n <= |kinds| && |was| <= MAX_BAD && 2 <= l
    requires Skips(kinds) && Chunk16Is(buf, n, kinds, j)
    requires Scanned(list, was, kinds, j, first, perCluster, u, d, t, l)
    modifies list, list.bads
    ensures list.bads == old(list.bads) && 2 <= last
    ensures Scanned(list, was, kinds, j + n, first, perCluster, used, bad, items, last)
  {
    used, bad, items, last := u, d, t, l;
    var i := 0;
    while i < n
      invariant 0 <= i <= n && list.bads == old(list.bads) && 2 <= last && unchanged(buf)
      invariant Scanned(list, was, kinds, j + i, first, perCluster, used, bad, items, last)
    {
      var w := At16(buf, i);
      assert KindOf16(w) == kinds[j + i];
      OneMore(kinds, j + i, was, first, perCluster);
      used, bad, items, last := Slot16(list, j + i, w, first, perCluster, used, bad, items, last);
      i := i + 1;
    }
  }

  function Cleared16(read: seq<byte>): (r: seq<byte>)
    requires 4 <= |read|
    ensures |r| == |read|
  {
    read[0 := 0][1 := 0][2 := 0][3 := 0]
  }

  /** Entry `i` of a chunk, with the initial two entries cleared, tells the kind of cluster j + i. */
  lemma ChunkEntry16(read: seq<byte>, bytes: seq<byte>, sectors: seq<seq<byte>>, start: nat, size: nat, sect: nat,
                    n: nat, j: nat, i: nat)
    requires Formatted(sectors) && start <= sect && sect + n <= start + size <= |sectors| && SECTOR * n <= |read|
    requires j == 256 * (sect - start) && i < 256 * n && 1 <= n
    requires forall p :: 0 <= p < SECTOR * n ==> read[p] == sectors[sect + p / SECTOR][p % SECTOR]
    requires bytes == if sect == start then Cleared16(read) else read
    ensures KindOf16(Entry16(bytes, i)) == Kinds16(sectors, start, size)[j + i]
    ensures j + i < 2 ==> Entry16(bytes, i) == 0
  {
    if j + i < 2 {
      Zero16();
    } else {
      ReadEntry16(read, sectors, sect, start, j, n, i);
      assert bytes[2 * i + 0] == read[2 * i + 0];
      assert bytes[2 * i + 1] == read[2 * i + 1];
    }
  }

  /** A chunk is read; in the first one the initial two entries are cleared. */
  method Chunk16(drive: Drive, sect: nat, chunksize: nat, buf: array<byte>, j: nat,
                 start: nat, size: nat, n: nat, ghost kinds: seq<Kind>)
    requires Formatted(drive.sectors) && start + size <= |drive.sectors|
    requires start <= sect && sect + chunksize <= start + size && j == 256 * (sect - start)
    requires n == 256 * chunksize && kinds == Kinds16(drive.sectors, start, size)
    requires 1 <= chunksize && SECTOR * chunksize <= buf.Length
    modifies buf
    ensures Chunk16Is(buf, n, kinds, j)
  {
    drive.Read(sect, chunksize, buf);
    ghost var read := buf[..];
    if sect == start {
      buf[0], buf[1], buf[2], buf[3] := 0, 0, 0, 0;
    }
    assert buf[..] == if sect == start then Cleared16(read) else read;
    forall i | 0 <= i < n
      ensures KindOf16(At16(buf, i)) == kinds[j + i]
      ensures j + i < 2 ==> At16(buf, i) == 0
    {
      ChunkEntry16(read, buf[..], drive.sectors, start, size, sect, chunksize, j, i);
    }
  }

  /** One chunk is read and gone through. */
  method Turn16(drive: Drive, buf: array<byte>, list: BadList, j: nat, sect: nat, chunksize: nat, n: nat,
                start: nat, size: nat, first: nat, perCluster: nat,
                u: nat, d: nat, t: nat, l: nat, ghost kinds: seq<Kind>, ghost was: seq<int>)
    returns (used: nat, bad: nat, items: nat, last: nat)
    requires Formatted(drive.sectors) && start + size <= |drive.sectors| && 0 < first
    requires kinds == Kinds16(drive.sectors, start, size)
    requires start <= sect && sect + chunksize <= start + size && j == 256 * (sect - start)
    requires n == 256 * chunksize && 1 <= chunksize && SECTOR * chunksize <= buf.Length && 2 <= l && |was| <= MAX_BAD
    requires buf.Length == 21 * SECTOR || buf.Length == SECTOR
    requires Scanned(list, was, kinds, j, first, perCluster, u, d, t, l)
    modifies buf, list, list.bads
    ensures list.bads == old(list.bads) && 2 <= last
    ensures Scanned(list, was, kinds, j + n, first, perCluster, used, bad, items, last)
  {
    Chunk16(drive, sect, chunksize, buf, j, start, size, n, kinds);
    used, bad, items, last := Slots16(buf, n, list, j, first, perCluster, u, d, t, l, kinds, was);
  }

  /** Lines 177 to 213 */
  method ScanFat16(drive: Drive, huge: array<byte>, small: array<byte>, list: BadList, start: nat, size: nat,
                   first: nat, perCluster: nat, ghost kinds: seq<Kind>)
    returns (used: nat, bad: nat, items: nat, last: nat)
    requires list.AtEnd() && huge.Length == 21 * SECTOR && small.Length == SECTOR && 0 < first
    requires Formatted(drive.sectors) && start + size <= |drive.sectors|
    requires kinds == Kinds16(drive.sectors, start, size)
    modifies huge, small, list, list.bads
    ensures list.bads == old(list.bads) && 2 <= last
    ensures Scanned(list, old(list.Contents()), kinds, 256 * size, first, perCluster, used, bad, items, last)
  {
    ghost var was := list.Contents();
    used, bad, items, last := 0, 0, 0, 2;
    var buf, chunksize := huge, 21;
    var j, sect := 0, start;
    while sect < start + size
      invariant start <= sect <= start + size && j == 256 * (sect - start)
      invariant if buf == huge then chunksize == 21 else buf == small && chunksize == 1
      invariant list.bads == old(list.bads) && 2 <= last
      invariant Scanned(list, was, kinds, j, first, perCluster, used, bad, items, last)
    {
      if sect + chunksize > start + size {
        chunksize, buf := 1, small;
      }
      used, bad, items, last := Turn16(drive, buf, list, j, sect, chunksize, 256 * chunksize,
                                       start, size, first, perCluster, used, bad, items, last, kinds, was);
      j, sect := j + 256 * chunksize, sect + chunksize;
    }
  }

  /** The FAT is read in chunks of 21 sectors, and sector by sector where fewer are left. */
  method BadClustPreserve16(drive: Drive, huge: array<byte>, small: array<byte>, list: BadList, b: Bpb)
    returns (end: int, used: nat, bad: nat, items: nat, last: nat)
    requires list.AtEnd() && huge.Length == 21 * SECTOR && small.Length == SECTOR
    requires Formatted(drive.sectors) && b.reserved + b.fatSize <= |drive.sectors| && 0 < b.reserved
    modifies huge, small, list, list.bads
    ensures list.bads == old(list.bads) && 2 <= last
    ensures Scanned(list, old(list.Contents()), Kinds16(drive.sectors, b.reserved, b.fatSize), 256 * b.fatSize,
                    ClusterStart(b), b.perCluster, used, bad, items, last)
    ensures end == LastUsedSector(ClusterStart(b), last, b.perCluster)
  {
    DataBehindBoot(b);
    used, bad, items, last := ScanFat16(drive, huge, small, list, b.reserved, b.fatSize, ClusterStart(b), b.perCluster,
                                       Kinds16(drive.sectors, b.reserved, b.fatSize));
    end := LastUsedSector(ClusterStart(b), last, b.perCluster);
  }

  /** The kinds of all clusters of a FAT with 32-bit entries; the first two entries are not looked at. */
  ghost function Kinds32(sectors: seq<seq<byte>>, start: nat, fatSize: nat): (k: seq<Kind>)
    requires Formatted(sectors) && start + fatSize <= |sectors|
    ensures |k| == 128 * fatSize && Skips(k)
  {
    seq(128 * fatSize, e requires 0 <= e < 128 * fatSize =>
      if e < 2 then Free else KindOf32(Entry32(sectors[start + e / 128], e % 128)))
  }

  /** Where the bytes of entry `e` stand in a chunk that was read from sector `sect`. */
  lemma Place32(e: nat, j: nat, sect: nat, start: nat)
    requires start <= sect && j == 128 * (sect - start) && j <= e
    ensures sect + (4 * (e - j) + 0) / SECTOR == start + e / 128 && (4 * (e - j) + 0) % SECTOR == 4 * (e % 128) + 0
    ensures sect + (4 * (e - j) + 1) / SECTOR == start + e / 128 && (4 * (e - j) + 1) % SECTOR == 4 * (e % 128) + 1
    ensures sect + (4 * (e - j) + 2) / SECTOR == start + e / 128 && (4 * (e - j) + 2) % SECTOR == 4 * (e % 128) + 2
    ensures sect + (4 * (e - j) + 3) / SECTOR == start + e / 128 && (4 * (e - j) + 3) % SECTOR == 4 * (e % 128) + 3
  {
  }

  lemma Zero32()
    ensures Word(0, 0, 0, 0) == 0 && KindOf32(0) == Free
  {
  }

  /** Word `i` of what was read is entry j + i of the FAT. */
  lemma ReadEntry32(read: seq<byte>, sectors: seq<seq<byte>>, sect: nat, start: nat, j: nat, n: nat, i: nat)
    requires Formatted(sectors) && start <= sect && sect + n <= |sectors| && SECTOR * n <= |read|
    requires j == 128 * (sect - start) && i < 128 * n
    requires forall p :: 0 <= p < SECTOR * n ==> read[p] == sectors[sect + p / SECTOR][p % SECTOR]
    ensures Word(read[4 * i], read[4 * i + 1], read[4 * i + 2], read[4 * i + 3])
         == Entry32(sectors[start + (j + i) / 128], (j + i) % 128)
  {
    Place32(j + i, j, sect, start);
    var sector, k := sectors[start + (j + i) / 128], (j + i) % 128;
    assert read[4 * i + 0] == sector[4 * k + 0];
    assert read[4 * i + 1] == sector[4 * k + 1];
    assert read[4 * i + 2] == sector[4 * k + 2];
    assert read[4 * i + 3] == sector[4 * k + 3];
  }

  /** Lines 115 to 132: one entry is counted, or its cluster goes to the list. */
  method Slot32(list: BadList, c: nat, w: word, first: nat, perCluster: nat, u: nat, d: nat, i: nat, l: nat)
    returns (used: nat, bad: nat, items: nat, last: nat)
    requires list.AtEnd() && 0 < first && 2 <= l && (c < 2 ==> w == 0)
    modifies list, list.bads
    ensures list.AtEnd() && list.bads == old(list.bads) && 2 <= last
    ensures Tally(used, bad, items, last, list.Contents())
         == Counted(Tally(u, d, i, l, old(list.Contents())), c, KindOf32(w),
                    if c < 2 then 0 else SectorOf(c, first, perCluster))
  {
    used, bad, items, last := u, d, i, l;
    var m := w & 0x0fff_ffff;
    if m < 0x0fff_fff0 || m > 0x0fff_fff7 {
      if m != 0 {
        used, last := used + 1, c;
      }
      if m > 0x0fff_fff7 {
        items := items + 1;
      }
    } else {
      list.Push(SectorOf(c, first, perCluster));
      bad := bad + 1;
    }
  }

  /** Word `i` of a buffer. */
  function At32(buf: array<byte>, i: nat): word
    reads buf
    requires 4 * i + 3 < buf.Length
  {
    Word(buf[4 * i], buf[4 * i + 1], buf[4 * i + 2], buf[4 * i + 3])
  }

  /** The buffer tells the kinds of the clusters j..j+n-1; those of 0 and 1 have been cleared. */
  ghost predicate Chunk32Is(buf: array<byte>, n: nat, kinds: seq<Kind>, j: nat)
    reads buf
    requires 4 * n <= buf.Length && j + n <= |kinds|
  {
    forall i :: 0 <= i < n ==> KindOf32(At32(buf, i)) == kinds[j + i] && (j + i < 2 ==> At32(buf, i) == 0)
  }

  /** The entries of one chunk, which are those of the clusters j..j+n-1. */
  method Slots32(buf: array<byte>, n: nat, list: BadList, j: nat, first: nat, perCluster: nat,
                 u: nat, d: nat, t: nat, l: nat, ghost kinds: seq<Kind>, ghost was: seq<int>)
    returns (used: nat, bad: nat, items: nat, last: nat)
    requires buf.Length == 21 * SECTOR || buf.Length == SECTOR
    requires 0 < first && 4 * n <= buf.Length && j + n <= |kinds| && |was| <= MAX_BAD && 2 <= l
    requires Skips(kinds) && Chunk32Is(buf, n, kinds, j)
    requires Scanned(list, was, kinds, j, first, perCluster, u, d, t, l)
    modifies list, list.bads
    ensures list.bads == old(list.bads) && 2 <= last
    ensures Scanned(list, was, kinds, j + n, first, perCluster, used, bad, items, last)
  {
    used, bad, items, last := u, d, t, l;
    var i := 0;
    while i < n
      invariant 0 <= i <= n && list.bads == old(list.bads) && 2 <= last && unchanged(buf)
      invariant Scanned(list, was, kinds, j + i, first, perCluster, used, bad, items, last)
    {
      var w := At32(buf, i);
      assert KindOf32(w) == kinds[j + i];
      OneMore(kinds, j + i, was, first, perCluster);
      used, bad, items, last := Slot32(list, j + i, w, first, perCluster, used, bad, items, last);
      i := i + 1;
    }
  }

  function Cleared32(read: seq<byte>): (r: seq<byte>)
    requires 8 <= |read|
    ensures |r| == |read|
  {
    read[0 := 0][1 := 0][2 := 0][3 := 0][4 := 0][5 := 0][6 := 0][7 := 0]
  }

  /** Entry `i` of a chunk, with the initial two entries cleared, tells the kind of cluster j + i. */
  lemma ChunkEntry32(read: seq<byte>, bytes: seq<byte>, sectors: seq<seq<byte>>, start: nat, size: nat, sect: nat,
                    n: nat, j: nat, i: nat)
    requires Formatted(sectors) && start <= sect && sect + n <= start + size <= |sectors| && SECTOR * n <= |read|
    requires j == 128 * (sect - start) && i < 128 * n && 1 <= n
    requires forall p :: 0 <= p < SECTOR * n ==> read[p] == sectors[sect + p / SECTOR][p % SECTOR]
    requires bytes == if sect == start then Cleared32(read) else read
    ensures KindOf32(Entry32(bytes, i)) == Kinds32(sectors, start, size)[j + i]
    ensures j + i < 2 ==> Entry32(bytes, i) == 0
  {
    if j + i < 2 {
      Zero32();
    } else {
      ReadEntry32(read, sectors, sect, start, j, n, i);
      assert bytes[4 * i + 0] == read[4 * i + 0];
      assert bytes[4 * i + 1] == read[4 * i + 1];
      assert bytes[4 * i + 2] == read[4 * i + 2];
      assert bytes[4 * i + 3] == read[4 * i + 3];
    }
  }

  /** A chunk is read; in the first one the initial two entries are cleared. */
  method Chunk32(drive: Drive, sect: nat, chunksize: nat, buf: array<byte>, j: nat,
                 start: nat, size: nat, n: nat, ghost kinds: seq<Kind>)
    requires Formatted(drive.sectors) && start + size <= |drive.sectors|
    requires start <= sect && sect + chunksize <= start + size && j == 128 * (sect - start)
    requires n == 128 * chunksize && kinds == Kinds32(drive.sectors, start, size)
    requires 1 <= chunksize && SECTOR * chunksize <= buf.Length
    modifies buf
    ensures Chunk32Is(buf, n, kinds, j)
  {
    drive.Read(sect, chunksize, buf);
    ghost var read := buf[..];
    if sect == start {
      buf[0], buf[1], buf[2], buf[3] := 0, 0, 0, 0;
      buf[4], buf[5], buf[6], buf[7] := 0, 0, 0, 0;
    }
    assert buf[..] == if sect == start then Cleared32(read) else read;
    forall i | 0 <= i < n
      ensures KindOf32(At32(buf, i)) == kinds[j + i]
      ensures j + i < 2 ==> At32(buf, i) == 0
    {
      ChunkEntry32(read, buf[..], drive.sectors, start, size, sect, chunksize, j, i);
    }
  }

  /** One chunk is read and gone through. */
  method Turn32(drive: Drive, buf: array<byte>, list: BadList, j: nat, sect: nat, chunksize: nat, n: nat,
                start: nat, size: nat, first: nat, perCluster: nat,
                u: nat, d: nat, t: nat, l: nat, ghost kinds: seq<Kind>, ghost was: seq<int>)
    returns (used: nat, bad: nat, items: nat, last: nat)
    requires Formatted(drive.sectors) && start + size <= |drive.sectors| && 0 < first
    requires kinds == Kinds32(drive.sectors, start, size)
    requires start <= sect && sect + chunksize <= start + size && j == 128 * (sect - start)
    requires n == 128 * chunksize && 1 <= chunksize && SECTOR * chunksize <= buf.Length && 2 <= l && |was| <= MAX_BAD
    requires buf.Length == 21 * SECTOR || buf.Length == SECTOR
    requires Scanned(list, was, kinds, j, first, perCluster, u, d, t, l)
    modifies buf, list, list.bads
    ensures list.bads == old(list.bads) && 2 <= last
    ensures Scanned(list, was, kinds, j + n, first, perCluster, used, bad, items, last)
  {
    Chunk32(drive, sect, chunksize, buf, j, start, size, n, kinds);
    used, bad, items, last := Slots32(buf, n, list, j, first, perCluster, u, d, t, l, kinds, was);
  }

  /** Lines 86 to 137 */
  method ScanFat32(drive: Drive, huge: array<byte>, small: array<byte>, list: BadList, start: nat, size: nat,
                   first: nat, perCluster: nat, ghost kinds: seq<Kind>)
    returns (used: nat, bad: nat, items: nat, last: nat)
    requires list.AtEnd() && huge.Length == 21 * SECTOR && small.Length == SECTOR && 0 < first
    requires Formatted(drive.sectors) && start + size <= |drive.sectors|
    requires kinds == Kinds32(drive.sectors, start, size)
    modifies huge, small, list, list.bads
    ensures list.bads == old(list.bads) && 2 <= last
    ensures Scanned(list, old(list.Contents()), kinds, 128 * size, first, perCluster, used, bad, items, last)
  {
    ghost var was := list.Contents();
    used, bad, items, last := 0, 0, 0, 2;
    var buf, chunksize := huge, 21;
    var j, sect := 0, start;
    while sect < start + size
      invariant start <= sect <= start + size && j == 128 * (sect - start)
      invariant if buf == huge then chunksize == 21 else buf == small && chunksize == 1
      invariant list.bads == old(list.bads) && 2 <= last
      invariant Scanned(list, was, kinds, j, first, perCluster, used, bad, items, last)
    {
      if sect + chunksize > start + size {
        chunksize, buf := 1, small;
      }
      used, bad, items, last := Turn32(drive, buf, list, j, sect, chunksize, 128 * chunksize,
                                       start, size, first, perCluster, used, bad, items, last, kinds, was);
      j, sect := j + 128 * chunksize, sect + chunksize;
    }
  }

  /** The FAT is read in chunks of 21 sectors, and sector by sector where fewer are left. */
  method BadClustPreserve32(drive: Drive, huge: array<byte>, small: array<byte>, list: BadList, b: Bpb)
    returns (end: int, used: nat, bad: nat, items: nat, last: nat)
    requires list.AtEnd() && huge.Length == 21 * SECTOR && small.Length == SECTOR
    requires Formatted(drive.sectors) && b.reserved + b.fatSize <= |drive.sectors| && 0 < b.reserved
    modifies huge, small, list, list.bads
    ensures list.bads == old(list.bads) && 2 <= last
    ensures Scanned(list, old(list.Contents()), Kinds32(drive.sectors, b.reserved, b.fatSize), 128 * b.fatSize,
                    FirstRoot(b), b.perCluster, used, bad, items, last)
    ensures end == LastUsedSector(FirstRoot(b), last, b.perCluster)
  {
    DataBehindBoot(b);
    used, bad, items, last := ScanFat32(drive, huge, small, list, b.reserved, b.fatSize, FirstRoot(b), b.perCluster,
                                       Kinds32(drive.sectors, b.reserved, b.fatSize));
    end := LastUsedSector(FirstRoot(b), last, b.perCluster);
  }
}
